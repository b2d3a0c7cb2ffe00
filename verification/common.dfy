/** The sub-objects of the response components (kakao/response/components/common.py):
    Link, Thumbnail, Profile, ListItem and Button. Each has a `validate` that raises and
    a `render` that validates (Profile excepted) and builds a dict. */
module Common {
  import opened Wrappers
  import opened Errors
  import opened PyValue
  import opened KakaoBase
  import opened Validation
  import Interaction

  /** A value that `validate_str` admits when None is allowed. */
  predicate StrOrNone(v: Value) {
    v.VStr? || v.VNone?
  }

  predicate IntOrNone(v: Value) {
    v.VInt? || v.VBool? || v.VNone?
  }

  /** The dict a nested object contributes: its rendering, or None when unset. */
  function Nested(r: Option<Dict>): Value {
    match r
    case Some(d) => VDict(d)
    case None => VNone
  }

  // ---------------------------------------------------------------- Link

  datatype Link = Link(web: Value, pc: Value, mobile: Value)

  /** `Link.validate`: at least one link set, and every set link a str. */
  function ValidateLink(l: Link): (r: Outcome)
    ensures r.Success? <==> !(l.web.VNone? && l.pc.VNone? && l.mobile.VNone?)
                            && StrOrNone(l.web) && StrOrNone(l.pc) && StrOrNone(l.mobile)
    ensures l.web.VNone? && l.pc.VNone? && l.mobile.VNone? ==> r == Failure(InvalidLinkError)
    ensures r.Failure? ==> r.error == InvalidLinkError || r.error == InvalidTypeError
  {
    var _ :- Require(!(l.web.VNone? && l.pc.VNone? && l.mobile.VNone?), InvalidLinkError);
    var vs := [l.web, l.pc, l.mobile];
    assert vs[0] == l.web && vs[1] == l.pc && vs[2] == l.mobile;
    ValidateStr(vs, false)
  }

  /** `Link.render`: validate, then exactly the links that are set. */
  function RenderLink(l: Link): (r: Result<Dict, Error>)
    ensures r.Success? <==> ValidateLink(l).Success?
    ensures r.Failure? ==> r.error == ValidateLink(l).error
    ensures r.Success? ==>
      && |r.value| >= 1
      && (("web", l.web) in r.value <==> !l.web.VNone?)
      && (("pc", l.pc) in r.value <==> !l.pc.VNone?)
      && (("mobile", l.mobile) in r.value <==> !l.mobile.VNone?)
      && (forall e | e in r.value :: e.0 in ["web", "pc", "mobile"] && e.1.VStr?)
  {
    var _ :- ValidateLink(l);
    var response := [("web", l.web), ("pc", l.pc), ("mobile", l.mobile)];
    var out := RemoveNone(response);
    assert out != [] by {
      if !l.web.VNone? { assert ("web", l.web) in out; }
      else if !l.pc.VNone? { assert ("pc", l.pc) in out; }
      else { assert ("mobile", l.mobile) in out; }
    }
    Success(out)
  }

  /** `link.render() if link is not None else None`: None stays None, a Link is
      rendered, and any other value has no `render` attribute. */
  function RenderLinkRef(link: Ref<Link>): (r: Result<Value, Error>)
    ensures link.IsNone() ==> r == Success(VNone)
    ensures link.Plain? && !link.IsNone() ==> r == Failure(AttributeError)
    ensures link.Inst? ==> r.Success? == RenderLink(link.obj).Success?
    ensures link.Inst? && r.Success? ==> r.value == VDict(RenderLink(link.obj).value)
    ensures link.Inst? && r.Failure? ==> r.error == RenderLink(link.obj).error
  {
    match link
    case Inst(l) =>
      var d :- RenderLink(l);
      Success(VDict(d))
    case Plain(v) => if v.VNone? then Success(VNone) else Failure(AttributeError)
  }

  // ----------------------------------------------------------- Thumbnail

  datatype Thumbnail = Thumbnail(imageUrl: Value, link: Ref<Link>, fixedRatio: Value)

  /** The constructor's defaults: no link, `fixed_ratio=False`. */
  function NewThumbnail(imageUrl: Value): (t: Thumbnail)
    ensures t.fixedRatio == VBool(false) && t.link.IsNone() && t.imageUrl == imageUrl
  {
    Thumbnail(imageUrl, Plain(VNone), VBool(false))
  }

  /** `Thumbnail.validate`: image URL str or None, link a Link or None, fixed ratio a
      bool or None. */
  function ValidateThumbnail(t: Thumbnail): (r: Outcome)
    ensures r.Success? <==> StrOrNone(t.imageUrl) && (t.link.Inst? || t.link.IsNone())
                            && (t.fixedRatio.VBool? || t.fixedRatio.VNone?)
    ensures r.Failure? ==> r.error == InvalidTypeError
  {
    assert [t.imageUrl][0] == t.imageUrl && [t.link][0] == t.link && [t.fixedRatio][0] == t.fixedRatio;
    var _ :- ValidateStr([t.imageUrl], false);
    var _ :- ValidateRefs([t.link], false, InvalidTypeError);
    SingleType(BoolType);
    ValidateValues([BoolType], [t.fixedRatio], false, InvalidTypeError)
  }

  /** `Thumbnail.render`: validate, render the link if any, drop None values (see
      `ThumbnailContents`). */
  function RenderThumbnail(t: Thumbnail): (r: Result<Dict, Error>)
    ensures r.Success? <==> ValidateThumbnail(t).Success? && (t.link.Inst? ==> RenderLink(t.link.obj).Success?)
    ensures r.Failure? && ValidateThumbnail(t).Failure? ==> r.error == InvalidTypeError
  {
    var _ :- ValidateThumbnail(t);
    var link :- RenderLinkRef(t.link);
    Success(RemoveNone([("imageUrl", t.imageUrl), ("fixedRatio", t.fixedRatio), ("link", link)]))
  }

  /** A rendered thumbnail is the stripped dict of image URL, ratio and rendered link. */
  lemma ThumbnailFields(t: Thumbnail)
    requires RenderThumbnail(t).Success?
    ensures RenderThumbnail(t).value ==
      RemoveNone([("imageUrl", t.imageUrl), ("fixedRatio", t.fixedRatio), ("link", RenderLinkRef(t.link).value)])
    ensures t.link.Inst? <==> !RenderLinkRef(t.link).value.VNone?
  {
  }

  /** What the stripped dict of image URL, ratio and link holds. */
  lemma ThumbnailEntries(t: Thumbnail, link: Value, out: Dict)
    requires out == RemoveNone([("imageUrl", t.imageUrl), ("fixedRatio", t.fixedRatio), ("link", link)])
    requires t.link.Inst? <==> !link.VNone?
    ensures ("imageUrl", t.imageUrl) in out <==> !t.imageUrl.VNone?
    ensures ("fixedRatio", t.fixedRatio) in out <==> !t.fixedRatio.VNone?
    ensures t.link.Inst? ==> ("link", link) in out
    ensures !t.link.Inst? ==> forall e | e in out :: e.0 != "link"
    ensures forall e | e in out :: e.0 in ["imageUrl", "fixedRatio", "link"] && !e.1.VNone?
  {
  }

  /** A rendered thumbnail holds the image URL and the ratio when they are set, and the
      rendered link exactly when a Link is attached; nothing else. */
  lemma ThumbnailContents(t: Thumbnail)
    requires RenderThumbnail(t).Success?
    ensures var out := RenderThumbnail(t).value;
      && (("imageUrl", t.imageUrl) in out <==> !t.imageUrl.VNone?)
      && (("fixedRatio", t.fixedRatio) in out <==> !t.fixedRatio.VNone?)
      && (t.link.Inst? ==> ("link", VDict(RenderLink(t.link.obj).value)) in out)
      && (!t.link.Inst? ==> forall e | e in out :: e.0 != "link")
      && (forall e | e in out :: e.0 in ["imageUrl", "fixedRatio", "link"] && !e.1.VNone?)
  {
    ThumbnailFields(t);
    ThumbnailEntries(t, RenderLinkRef(t.link).value, RenderThumbnail(t).value);
  }

  /** With the default ratio and a str image URL, both keys are always present. */
  lemma DefaultThumbnailKeys(url: string)
    ensures var r := RenderThumbnail(NewThumbnail(VStr(url)));
      r.Success? && ("imageUrl", VStr(url)) in r.value && ("fixedRatio", VBool(false)) in r.value
  {
    ThumbnailContents(NewThumbnail(VStr(url)));
  }

  // ------------------------------------------------------------- Profile

  datatype Profile = Profile(nickname: Value, imageUrl: Value)

  /** `Profile.validate`: nickname and image URL each a str or None. */
  function ValidateProfile(p: Profile): (r: Outcome)
    ensures r.Success? <==> StrOrNone(p.nickname) && StrOrNone(p.imageUrl)
    ensures r.Failure? ==> r.error == InvalidTypeError
  {
    assert [p.nickname, p.imageUrl][1] == p.imageUrl;
    ValidateStr([p.nickname, p.imageUrl], false)
  }

  /** `Profile.render`: no validation, so it never raises; None values are dropped. */
  function RenderProfile(p: Profile): (d: Dict)
    ensures ("nickname", p.nickname) in d <==> !p.nickname.VNone?
    ensures ("imageUrl", p.imageUrl) in d <==> !p.imageUrl.VNone?
    ensures forall e | e in d :: e.0 in ["nickname", "imageUrl"] && !e.1.VNone?
  {
    RemoveNone([("nickname", p.nickname), ("imageUrl", p.imageUrl)])
  }

  // ------------------------------------------------------------ ListItem

  /** The actions a ListItem may carry. */
  const ListItemActions: seq<Interaction.ActionKind> := [Interaction.Block, Interaction.Message]

  /** A list item; `extra` is only meaningful (and only set by the constructor) when an
      action is given. */
  datatype ListItem = ListItem(
    title: Value, description: Value, imageUrl: Value, link: Ref<Link>,
    action: Option<Interaction.ActionKind>, blockId: Value, messageText: Value, extra: Value)

  /** The interaction part of a list item: it defines `block_id` and `message_text`. */
  function ListItemInteraction(item: ListItem): Interaction.Interaction {
    Interaction.Interaction(item.action, item.extra,
                            [("block_id", item.blockId), ("message_text", item.messageText)])
  }

  /** `ListItem.__init__`: the action is processed only when given. */
  function NewListItem(title: Value, description: Value, imageUrl: Value, link: Ref<Link>,
                       action: Interaction.ActionArg, blockId: Value, messageText: Value,
                       extra: Value): (r: Result<ListItem, Error>)
    ensures r.Success? <==> Interaction.InitAction(action).Success?
    ensures r.Success? ==> r.value.action == Interaction.InitAction(action).value
                           && r.value.title == title && r.value.blockId == blockId
    ensures action == Interaction.ByValue(VNone) ==> r.Success? && r.value.action.None?
  {
    var a :- Interaction.InitAction(action);
    Success(ListItem(title, description, imageUrl, link, a, blockId, messageText, extra))
  }

  /** What `ListItem.validate` accepts. */
  predicate ListItemValid(item: ListItem) {
    && (item.action.Some? ==> Interaction.Valid(ListItemInteraction(item), ListItemActions))
    && item.title.VStr?
    && StrOrNone(item.description) && StrOrNone(item.imageUrl)
    && (item.link.Inst? || item.link.IsNone())
  }

  /** `ListItem.validate`: the interaction first (when there is an action), then a
      non-None str title, str-or-None description and image, Link-or-None link. */
  function ValidateListItem(item: ListItem): (r: Outcome)
    ensures r.Success? <==> ListItemValid(item)
    ensures item.action == Some(Interaction.Phone) ==> r == Failure(InvalidActionError) ||
                                                       r == Failure(InvalidTypeError)
  {
    var _ :- if item.action.Some? then Interaction.Validate(ListItemInteraction(item), ListItemActions) else Pass;
    assert [item.title][0] == item.title && [item.link][0] == item.link;
    assert [item.description, item.imageUrl][1] == item.imageUrl;
    var _ :- ValidateStr([item.title], true);
    var _ :- ValidateStr([item.description, item.imageUrl], false);
    ValidateRefs([item.link], false, InvalidTypeError)
  }

  /** The four own fields of a list item, before the interaction is merged in. */
  function ListItemOwn(item: ListItem, link: Value): Dict {
    [("title", item.title), ("description", item.description), ("imageUrl", item.imageUrl), ("link", link)]
  }

  /** `ListItem.render`: validate; title, description, image and link; with an action the
      interaction's output is merged in; then None values are dropped (see
      `ListItemContents`). */
  function RenderListItem(item: ListItem): (r: Result<Dict, Error>)
    ensures r.Success? <==> ListItemValid(item) && (item.link.Inst? ==> RenderLink(item.link.obj).Success?)
  {
    var _ :- ValidateListItem(item);
    var link :- RenderLinkRef(item.link);
    var own := ListItemOwn(item, link);
    if item.action.Some? then
      Success(RemoveNone(Update(own, Interaction.Render(ListItemInteraction(item), ListItemActions).value)))
    else
      Success(RemoveNone(own))
  }

  /** The own fields of a rendered list item: the entries of title, description, image
      and link that are not None. */
  function ListItemOwnRendered(item: ListItem): Dict
    requires item.link.Inst? || item.link.IsNone()
    requires item.link.Inst? ==> RenderLink(item.link.obj).Success?
  {
    RemoveNone(ListItemOwn(item, RenderLinkRef(item.link).value))
  }

  /** None of a list item's own keys is one an interaction renders. */
  lemma OwnKeysAreNotInteractionKeys(item: ListItem, link: Value)
    ensures forall e | e in ListItemOwn(item, link) :: !Interaction.InteractionKey(e.0)
  {
    assert "description"[0] != "messageText"[0] && "description"[0] != "phoneNumber"[0];
  }

  /** Without an action a rendered list item is just its own fields, and the title (a
      str, hence never dropped) is always among them. */
  lemma ListItemWithoutAction(item: ListItem)
    requires RenderListItem(item).Success? && item.action.None?
    ensures RenderListItem(item).value == ListItemOwnRendered(item)
    ensures ("title", item.title) in ListItemOwnRendered(item)
  {
    var own := ListItemOwn(item, RenderLinkRef(item.link).value);
    assert ("title", item.title) in own;
  }

  /** With an action, the rendered interaction (action first, then its fields and extra)
      follows the item's own fields. */
  lemma ListItemWithAction(item: ListItem)
    requires RenderListItem(item).Success? && item.action.Some?
    ensures RenderListItem(item).value ==
      ListItemOwnRendered(item) + Interaction.Render(ListItemInteraction(item), ListItemActions).value
    ensures ("title", item.title) in ListItemOwnRendered(item)
  {
    var own := ListItemOwn(item, RenderLinkRef(item.link).value);
    assert ("title", item.title) in own;
    OwnKeysAreNotInteractionKeys(item, RenderLinkRef(item.link).value);
    var it := ListItemInteraction(item);
    var inter := Interaction.Render(it, ListItemActions).value;
    Interaction.RenderMerges(own, it, ListItemActions);
    RemoveNoneConcat(own, inter);
    RemoveNoneNoOp(inter);
  }

  // -------------------------------------------------------------- Button

  datatype Button = Button(
    labelText: Value, action: Option<Interaction.ActionKind>, webLinkUrl: Value,
    messageText: Value, phoneNumber: Value, blockId: Value, extra: Value)

  /** The interaction part of a button: it defines all four field attributes. */
  function ButtonInteraction(b: Button): Interaction.Interaction {
    Interaction.Interaction(b.action, b.extra,
      [("web_link_url", b.webLinkUrl), ("message_text", b.messageText),
       ("phone_number", b.phoneNumber), ("block_id", b.blockId)])
  }

  /** `Button.__init__`: the action goes through `process_action` unless None. */
  function NewButton(labelText: Value, action: Interaction.ActionArg, webLinkUrl: Value, messageText: Value,
                     phoneNumber: Value, blockId: Value, extra: Value): (r: Result<Button, Error>)
    ensures r.Success? <==> Interaction.InitAction(action).Success?
    ensures r.Failure? ==> r.error == InvalidActionError
    ensures r.Success? ==> r.value.action == Interaction.InitAction(action).value && r.value.labelText == labelText
  {
    var a :- Interaction.InitAction(action);
    Success(Button(labelText, a, webLinkUrl, messageText, phoneNumber, blockId, extra))
  }

  /** What `Button.validate` accepts. */
  predicate ButtonValid(b: Button) {
    && StrOrNone(b.labelText) && StrOrNone(b.webLinkUrl) && StrOrNone(b.messageText)
    && StrOrNone(b.phoneNumber) && StrOrNone(b.blockId)
    && Interaction.Valid(ButtonInteraction(b), Interaction.AllActions)
  }

  /** `Button.validate`: every text attribute str or None, then the interaction with all
      six actions available. */
  function ValidateButton(b: Button): (r: Outcome)
    ensures r.Success? <==> ButtonValid(b)
  {
    var vs := [b.labelText, b.webLinkUrl, b.messageText, b.phoneNumber, b.blockId];
    assert vs[0] == b.labelText && vs[1] == b.webLinkUrl && vs[2] == b.messageText
        && vs[3] == b.phoneNumber && vs[4] == b.blockId;
    var _ :- ValidateStr(vs, false);
    Interaction.Validate(ButtonInteraction(b), Interaction.AllActions)
  }

  /** `Button.render`: validate, then "label" (None included) updated with the
      interaction's output; the label is never stripped (see `ButtonContents`). */
  function RenderButton(b: Button): (r: Result<Dict, Error>)
    ensures r.Success? <==> ButtonValid(b)
  {
    var _ :- ValidateButton(b);
    Success(Update([("label", b.labelText)], Interaction.Render(ButtonInteraction(b), Interaction.AllActions).value))
  }

  /** A rendered button is the label entry followed by the rendered interaction, which
      begins with the action's wire value. */
  lemma ButtonContents(b: Button)
    requires RenderButton(b).Success?
    ensures var out := RenderButton(b).value;
      && out == [("label", b.labelText)] + Interaction.Render(ButtonInteraction(b), Interaction.AllActions).value
      && (b.action.None? ==> out == [("label", b.labelText)])
      && (b.action.Some? ==> |out| >= 2 && out[1] == ("action", VStr(b.action.value.WireValue())))
  {
    var it := ButtonInteraction(b);
    var inter := Interaction.Render(it, Interaction.AllActions).value;
    if b.action.Some? {
      Interaction.RenderKeys(it, Interaction.AllActions);
      LabelThenInteraction(b.labelText, inter);
    }
  }

  /** `{"label": label}` updated with a rendered interaction. */
  lemma LabelThenInteraction(labelText: Value, inter: Dict)
    requires UniqueKeys(inter) && forall e | e in inter :: Interaction.InteractionKey(e.0)
    ensures Update([("label", labelText)], inter) == [("label", labelText)] + inter
  {
    assert "label"[0] != "extra"[0];
    Interaction.MergeAfter([("label", labelText)], inter);
  }
}
