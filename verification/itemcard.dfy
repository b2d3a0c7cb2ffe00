/** The parts an item card is built from (kakao/response/components/itemcard.py):
    ItemThumbnail, ImageTitle, Item (and its subclass ItemListSummary) and ItemProfile.
    Each `render` validates first and drops None values. */
module ItemCardParts {
  import opened Wrappers
  import opened Errors
  import opened PyValue
  import opened KakaoBase
  import opened Validation
  import opened Common

  // ------------------------------------------------------- ItemThumbnail

  datatype ItemThumbnail = ItemThumbnail(imageUrl: Value, width: Value, height: Value, link: Ref<Link>)

  /** What `ItemThumbnail.validate` accepts; the link is not checked. */
  predicate ItemThumbnailValid(t: ItemThumbnail) {
    t.imageUrl.VStr? && IntOrNone(t.width) && IntOrNone(t.height)
  }

  /** `ItemThumbnail.validate`: a non-None str image URL, then int-or-None sizes. */
  function ValidateItemThumbnail(t: ItemThumbnail): (r: Outcome)
    ensures r.Success? <==> ItemThumbnailValid(t)
    ensures r.Failure? ==> r.error == InvalidTypeError
  {
    assert [t.imageUrl][0] == t.imageUrl && [t.width, t.height][1] == t.height;
    var _ :- ValidateStr([t.imageUrl], true);
    ValidateInt([t.width, t.height], false)
  }

  /** `ItemThumbnail.render`: validate; image URL, width, height and the rendered link,
      None values dropped. A link that is neither None nor a Link has no `render`. */
  function RenderItemThumbnail(t: ItemThumbnail): (r: Result<Dict, Error>)
    ensures r.Success? <==> ItemThumbnailValid(t) && (t.link.Inst? || t.link.IsNone())
                            && (t.link.Inst? ==> RenderLink(t.link.obj).Success?)
    ensures ItemThumbnailValid(t) && t.link.Plain? && !t.link.IsNone() ==> r == Failure(AttributeError)
  {
    var _ :- ValidateItemThumbnail(t);
    var link :- RenderLinkRef(t.link);
    Success(RemoveNone([("imageUrl", t.imageUrl), ("width", t.width), ("height", t.height), ("link", link)]))
  }

  /** A rendered item thumbnail always holds the image URL, holds each size exactly when
      it is set, and holds the rendered link exactly when a Link is attached. */
  lemma ItemThumbnailContents(t: ItemThumbnail)
    requires RenderItemThumbnail(t).Success?
    ensures var out := RenderItemThumbnail(t).value;
      && ("imageUrl", t.imageUrl) in out
      && (("width", t.width) in out <==> !t.width.VNone?)
      && (("height", t.height) in out <==> !t.height.VNone?)
      && (t.link.Inst? ==> ("link", VDict(RenderLink(t.link.obj).value)) in out)
      && (t.link.IsNone() ==> forall e | e in out :: e.0 != "link")
      && (forall e | e in out :: e.0 in ["imageUrl", "width", "height", "link"])
  {
    ItemThumbnailEntries(t, RenderLinkRef(t.link).value, RenderItemThumbnail(t).value);
  }

  lemma ItemThumbnailEntries(t: ItemThumbnail, link: Value, out: Dict)
    requires out == RemoveNone([("imageUrl", t.imageUrl), ("width", t.width), ("height", t.height), ("link", link)])
    requires t.imageUrl.VStr?
    ensures ("imageUrl", t.imageUrl) in out
    ensures ("width", t.width) in out <==> !t.width.VNone?
    ensures ("height", t.height) in out <==> !t.height.VNone?
    ensures ("link", link) in out <==> !link.VNone?
    ensures link.VNone? ==> forall e | e in out :: e.0 != "link"
    ensures forall e | e in out :: e.0 in ["imageUrl", "width", "height", "link"]
  {
  }

  // ---------------------------------------------------------- ImageTitle

  /** The image URL is stored but never checked. */
  datatype ImageTitle = ImageTitle(title: Value, description: Value, imageUrl: Value)

  predicate ImageTitleValid(t: ImageTitle) {
    t.title.VStr? && StrOrNone(t.description)
  }

  /** `ImageTitle.validate`: a non-None str title and a str-or-None description. */
  function ValidateImageTitle(t: ImageTitle): (r: Outcome)
    ensures r.Success? <==> ImageTitleValid(t)
    ensures r.Failure? ==> r.error == InvalidTypeError
  {
    assert [t.title][0] == t.title && [t.description][0] == t.description;
    var _ :- ValidateStr([t.title], true);
    ValidateStr([t.description], false)
  }

  /** `ImageTitle.render`: validate, then title, description and image URL with None
      values dropped. */
  function RenderImageTitle(t: ImageTitle): (r: Result<Dict, Error>)
    ensures r.Success? <==> ImageTitleValid(t)
    ensures r.Failure? ==> r.error == InvalidTypeError
    ensures r.Success? ==>
      && ("title", t.title) in r.value
      && (("description", t.description) in r.value <==> !t.description.VNone?)
      && (("imageUrl", t.imageUrl) in r.value <==> !t.imageUrl.VNone?)
      && (forall e | e in r.value :: e.0 in ["title", "description", "imageUrl"] && !e.1.VNone?)
  {
    var _ :- ValidateImageTitle(t);
    Success(RemoveNone([("title", t.title), ("description", t.description), ("imageUrl", t.imageUrl)]))
  }

  // --------------------------------------------------------------- Item

  /** An `Item`, or an `ItemListSummary` when `summary` is set; the subclass adds
      nothing but its class, which `isinstance(_, ItemListSummary)` looks at. */
  datatype Item = Item(title: Value, description: Value, summary: bool)

  predicate ItemValid(it: Item) {
    it.title.VStr? && it.description.VStr?
  }

  /** `Item.validate`: title and description both non-None str. */
  function ValidateItem(it: Item): (r: Outcome)
    ensures r.Success? <==> ItemValid(it)
    ensures r.Failure? ==> r.error == InvalidTypeError
  {
    assert [it.title, it.description][1] == it.description;
    ValidateStr([it.title, it.description], true)
  }

  /** `Item.render`: a valid item renders to exactly its title and description. */
  function RenderItem(it: Item): (r: Result<Dict, Error>)
    ensures r.Success? <==> ItemValid(it)
    ensures r.Failure? ==> r.error == InvalidTypeError
    ensures r.Success? ==> r.value == [("title", it.title), ("description", it.description)]
  {
    var _ :- ValidateItem(it);
    var response := [("title", it.title), ("description", it.description)];
    RemoveNoneNoOp(response);
    Success(RemoveNone(response))
  }

  /** An `ItemListSummary` validates and renders exactly as the `Item` with the same
      title and description. */
  lemma SummaryLikeItem(title: Value, description: Value)
    ensures ValidateItem(Item(title, description, true)) == ValidateItem(Item(title, description, false))
    ensures RenderItem(Item(title, description, true)) == RenderItem(Item(title, description, false))
  {
  }

  // -------------------------------------------------------- ItemProfile

  datatype ItemProfile = ItemProfile(title: Value, imageUrl: Value, width: Value, height: Value)

  predicate ItemProfileValid(p: ItemProfile) {
    p.title.VStr? && StrOrNone(p.imageUrl) && IntOrNone(p.width) && IntOrNone(p.height)
  }

  /** `ItemProfile.validate`: a non-None str title, a str-or-None image URL, then
      int-or-None sizes. */
  function ValidateItemProfile(p: ItemProfile): (r: Outcome)
    ensures r.Success? <==> ItemProfileValid(p)
    ensures r.Failure? ==> r.error == InvalidTypeError
  {
    assert [p.title][0] == p.title && [p.imageUrl][0] == p.imageUrl && [p.width, p.height][1] == p.height;
    var _ :- ValidateStr([p.title], true);
    var _ :- ValidateStr([p.imageUrl], false);
    ValidateInt([p.width, p.height], false)
  }

  /** `ItemProfile.render`: validate, then title, image URL, width and height with None
      values dropped (see `ItemProfileContents`). */
  function RenderItemProfile(p: ItemProfile): (r: Result<Dict, Error>)
    ensures r.Success? <==> ItemProfileValid(p)
    ensures r.Failure? ==> r.error == InvalidTypeError
  {
    var _ :- ValidateItemProfile(p);
    Success(RemoveNone([("title", p.title), ("imageUrl", p.imageUrl), ("width", p.width), ("height", p.height)]))
  }

  /** A rendered item profile always holds the title and holds each other field exactly
      when it is set. */
  lemma ItemProfileContents(p: ItemProfile)
    requires RenderItemProfile(p).Success?
    ensures var out := RenderItemProfile(p).value;
      && ("title", p.title) in out
      && (("imageUrl", p.imageUrl) in out <==> !p.imageUrl.VNone?)
      && (("width", p.width) in out <==> !p.width.VNone?)
      && (("height", p.height) in out <==> !p.height.VNone?)
      && (forall e | e in out :: e.0 in ["title", "imageUrl", "width", "height"] && !e.1.VNone?)
  {
    ItemProfileEntries(p, RenderItemProfile(p).value);
  }

  lemma ItemProfileEntries(p: ItemProfile, out: Dict)
    requires out == RemoveNone([("title", p.title), ("imageUrl", p.imageUrl), ("width", p.width), ("height", p.height)])
    requires p.title.VStr?
    ensures ("title", p.title) in out
    ensures ("imageUrl", p.imageUrl) in out <==> !p.imageUrl.VNone?
    ensures ("width", p.width) in out <==> !p.width.VNone?
    ensures ("height", p.height) in out <==> !p.height.VNone?
    ensures forall e | e in out :: e.0 in ["title", "imageUrl", "width", "height"] && !e.1.VNone?
  {
  }
}
