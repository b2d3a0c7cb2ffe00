/** The output components a skill response carries (kakao/response/components/simple.py
    and the cards): each has a template name, validates and renders itself, and a
    carousel lines up several cards of one kind. */
module Components {
  import opened Wrappers
  import opened Errors
  import opened PyValue
  import opened PyStrings
  import opened Lists
  import opened Validation
  import opened Each
  import opened Cards

  // ------------------------------------------------------------- kinds

  /** The concrete component classes, which `type(component)` tells apart. */
  datatype Kind =
    | TextCardKind | BasicCardKind | CommerceCardKind | ListCardKind | ItemCardKind
    | SimpleTextKind | SimpleImageKind | CarouselKind
  {
    /** The class attribute `name`, which is also the template key of the output. */
    function Name(): string {
      match this
      case TextCardKind => "textCard"
      case BasicCardKind => "basicCard"
      case CommerceCardKind => "commerceCard"
      case ListCardKind => "listCard"
      case ItemCardKind => "itemCard"
      case SimpleTextKind => "simpleText"
      case SimpleImageKind => "simpleImage"
      case CarouselKind => "carousel"
    }

    /** The five card classes a carousel may hold. */
    predicate IsCard() {
      TextCardKind? || BasicCardKind? || CommerceCardKind? || ListCardKind? || ItemCardKind?
    }
  }

  /** `ParentComponent.validate`: a class whose `name` still contains "Parent" has not
      named its template. */
  function ValidateName(name: string): (r: Outcome)
    ensures r.Success? <==> !Contains(name, "Parent")
    ensures r.Failure? ==> r.error == NotImplementedError
  {
    Require(!Contains(name, "Parent"), NotImplementedError)
  }

  /** The abstract base keeps the placeholder name and is refused; every concrete
      component has named its template and passes. */
  lemma NameCheck(k: Kind)
    ensures ValidateName("ParentComponent") == Failure(NotImplementedError)
    ensures ValidateName(k.Name()) == Pass
  {
    assert "Parent" <= "ParentComponent"[0..];
    MissingFirstChar(k.Name(), "Parent");
  }

  /** Template names are distinct, so the name identifies the kind. */
  lemma NamesDistinct(a: Kind, b: Kind)
    requires a != b
    ensures a.Name() != b.Name()
  {
    assert "textCard"[0] != "listCard"[0] && "basicCard"[0] != "carousel"[0];
    assert "simpleText"[6] != "simpleImage"[6];
  }

  // --------------------------------------------------------- components

  /** The five cards (kakao/response/components/card.py). */
  datatype Card =
    | TextCardOf(textCard: TextCard)
    | BasicCardOf(basicCard: BasicCard)
    | CommerceCardOf(commerceCard: CommerceCard)
    | ListCardOf(listCard: ListCard)
    | ItemCardOf(itemCard: ItemCard)
  {
    function KindOf(): (k: Kind)
      ensures k.IsCard()
    {
      match this
      case TextCardOf(_) => TextCardKind
      case BasicCardOf(_) => BasicCardKind
      case CommerceCardOf(_) => CommerceCardKind
      case ListCardOf(_) => ListCardKind
      case ItemCardOf(_) => ItemCardKind
    }
  }

  datatype Component =
    | CardComponent(card: Card)
    | SimpleTextComponent(text: Value)
    | SimpleImageComponent(imageUrl: Value, altText: Value)
      /** `kind` is the remembered `self.type`: set from the first item, and reset by
          `add_item` only when the carousel is empty. */
    | CarouselComponent(kind: Option<Kind>, items: seq<Component>)
  {
    /** Only a card component has a card kind. */
    function KindOf(): (k: Kind)
      ensures k.IsCard() <==> CardComponent?
    {
      match this
      case CardComponent(card) => card.KindOf()
      case SimpleTextComponent(_) => SimpleTextKind
      case SimpleImageComponent(_, _) => SimpleImageKind
      case CarouselComponent(_, _) => CarouselKind
    }
  }

  /** A card's own `validate`. */
  function ValidateCard(card: Card): Outcome {
    match card
    case TextCardOf(t) => ValidateTextCard(t)
    case BasicCardOf(b) => ValidateBasicCard(b)
    case CommerceCardOf(cc) => ValidateCommerceCard(cc)
    case ListCardOf(l) => ValidateListCard(l)
    case ItemCardOf(it) => ValidateItemCard(it)
  }

  /** A card's own `render` (which validates first). */
  function RenderCard(card: Card): Result<Dict, Error> {
    match card
    case TextCardOf(t) => RenderTextCard(t)
    case BasicCardOf(b) => RenderBasicCard(b)
    case CommerceCardOf(cc) => RenderCommerceCard(cc)
    case ListCardOf(l) => RenderListCard(l)
    case ItemCardOf(it) => RenderItemCard(it)
  }

  /** No card renders to an empty dict: each keeps at least one entry it always sets. */
  lemma CardNeverEmpty(card: Card)
    requires RenderCard(card).Success?
    ensures |RenderCard(card).value| > 0
  {
    match card
    case TextCardOf(t) => TextCardContents(t);
    case BasicCardOf(b) => BasicCardContents(b);
    case CommerceCardOf(cc) => CommerceCardContents(cc);
    case ListCardOf(l) => ListCardContents(l);
    case ItemCardOf(it) => ItemCardContents(it);
  }

  /** What `CarouselComponent.validate` demands of a carousel, one requirement per
      assertion in the order it makes them. */
  predicate CarouselShape(kind: Option<Kind>, items: seq<Component>) {
    && |items| > 0
    && kind.Some?
    && kind.value.IsCard()
    && (forall i | 0 <= i < |items| :: items[i].KindOf() == kind.value)
  }

  /** `component.validate()` for every kind of component. A simple text may be None,
      since `validate_str` admits None by default. A carousel's items are known to be
      cards once their kinds are checked, so each validates as its card. */
  function Validate(c: Component): (r: Outcome)
    ensures c.SimpleTextComponent? ==> (r.Success? <==> c.text.VStr? || c.text.VNone?)
    ensures c.SimpleImageComponent? ==>
      (r.Success? <==> (c.imageUrl.VStr? || c.imageUrl.VNone?) && (c.altText.VStr? || c.altText.VNone?))
    ensures c.CarouselComponent? ==>
      (r.Success? <==> CarouselShape(c.kind, c.items) && forall i | 0 <= i < |c.items| :: ValidateCard(c.items[i].card).Success?)
    ensures c.CarouselComponent? && !CarouselShape(c.kind, c.items) ==> r.Failure?
    ensures c.CarouselComponent? && |c.items| == 0 ==> r == Failure(AssertionError)
  {
    match c
    case CardComponent(card) => ValidateCard(card)
    case SimpleTextComponent(text) =>
      assert [text][0] == text;
      ValidateStr([text], false)
    case SimpleImageComponent(url, alt) =>
      assert [url, alt][1] == alt;
      ValidateStr([url, alt], false)
    case CarouselComponent(kind, items) =>
      var _ :- Require(|items| > 0, AssertionError);
      var _ :- Require(kind.Some?, AssertionError);
      var _ :- Require(kind.value.IsCard(), AssertionError);
      var _ :- ValidateKinds(items, kind.value);
      ValidateAll(CardsOf(items), ValidateCard)
  }

  /** `validate_type(self.type, *self.items, disallow_none=True)`. */
  function ValidateKinds(items: seq<Component>, k: Kind): (r: Outcome)
    ensures r.Success? <==> forall i | 0 <= i < |items| :: items[i].KindOf() == k
    ensures r.Failure? ==> r.error == InvalidTypeError
  {
    ValidateType((x: Component) => false, (x: Component) => x.KindOf() == k, items, true, InvalidTypeError)
  }

  /** The cards of a carousel whose items are all cards. */
  function CardsOf(items: seq<Component>): (cards: seq<Card>)
    requires forall i | 0 <= i < |items| :: items[i].CardComponent?
    ensures |cards| == |items| && forall i | 0 <= i < |items| :: items[i] == CardComponent(cards[i])
  {
    seq(|items|, i requires 0 <= i < |items| => items[i].card)
  }

  /** `component.render()`: the card renders, a simple text `{"text": ...}` and a
      simple image `{"imageUrl": ..., "altText": ...}` with nothing dropped, and a
      carousel `{"type": ..., "items": [...]}` with one rendered card per item. Each
      validates first. */
  function Render(c: Component): (r: Result<Dict, Error>)
    ensures !c.CardComponent? && r.Success? ==> Validate(c).Success?
    ensures c.SimpleTextComponent? ==> (r.Success? <==> Validate(c).Success?)
    ensures c.SimpleTextComponent? && r.Success? ==> r.value == [("text", c.text)]
    ensures c.SimpleImageComponent? ==> (r.Success? <==> Validate(c).Success?)
    ensures c.SimpleImageComponent? && r.Success? ==> r.value == [("imageUrl", c.imageUrl), ("altText", c.altText)]
    ensures c.CarouselComponent? ==>
      (r.Success? <==> Validate(c).Success? && forall i | 0 <= i < |c.items| :: RenderCard(c.items[i].card).Success?)
    ensures c.CarouselComponent? && r.Success? ==>
      && |r.value| == 2 && r.value[0] == ("type", VStr(c.kind.value.Name()))
      && r.value[1].0 == "items" && r.value[1].1.VList? && |r.value[1].1.items| == |c.items|
      && forall i | 0 <= i < |c.items| :: r.value[1].1.items[i] == VDict(RenderCard(c.items[i].card).value)
  {
    match c
    case CardComponent(card) => RenderCard(card)
    case SimpleTextComponent(text) =>
      var _ :- Validate(c);
      Success([("text", text)])
    case SimpleImageComponent(url, alt) =>
      var _ :- Validate(c);
      Success([("imageUrl", url), ("altText", alt)])
    case CarouselComponent(kind, items) =>
      var _ :- Validate(c);
      var rendered :- RenderAll(CardsOf(items), RenderCard);
      Success([("type", VStr(kind.value.Name())), ("items", VList(rendered))])
  }

  // ------------------------------------------------------------ carousel

  /** `CarouselComponent(*items)`: the kind is taken from the first item. */
  function NewCarousel(items: seq<Component>): (c: Component)
    ensures c.CarouselComponent? && c.items == items
    ensures |items| == 0 <==> c.kind.None?
    ensures |items| > 0 ==> c.kind == Some(items[0].KindOf())
  {
    CarouselComponent(if |items| == 0 then None else Some(items[0].KindOf()), items)
  }

  /** Every item has the remembered kind, and a carousel with items remembers one. */
  predicate Homogeneous(c: Component)
    requires c.CarouselComponent?
  {
    && (|c.items| > 0 ==> c.kind.Some?)
    && (forall i | 0 <= i < |c.items| :: c.items[i].KindOf() == c.kind.value)
  }

  /** `CarouselComponent.add_item(item)`: an empty carousel takes the item's kind;
      otherwise the item must be of the remembered kind (AssertionError). */
  function AddCarouselItem(c: Component, item: Component): (r: Result<Component, Error>)
    requires c.CarouselComponent?
    ensures r.Success? ==> r.value.CarouselComponent? && r.value.items == c.items + [item]
    ensures r.Failure? ==> r.error == AssertionError
    ensures r.Success? <==> |c.items| == 0 || (c.kind.Some? && item.KindOf() == c.kind.value)
    ensures |c.items| == 0 ==> r == Success(CarouselComponent(Some(item.KindOf()), [item]))
  {
    if |c.items| == 0 then Success(CarouselComponent(Some(item.KindOf()), [item]))
    else
      var _ :- Require(c.kind.Some?, AssertionError);
      var _ :- Require(item.KindOf() == c.kind.value, AssertionError);
      Success(c.(items := c.items + [item]))
  }

  /** `CarouselComponent.remove_item(item)`: `list.remove`; the remembered kind stays. */
  function RemoveCarouselItem(c: Component, item: Component): (r: Result<Component, Error>)
    requires c.CarouselComponent?
    ensures r.Success? <==> item in c.items
    ensures r.Success? ==> r.value == c.(items := RemoveFirst(c.items, item))
    ensures r.Failure? ==> r.error.ValueError?
  {
    var items :- Remove(c.items, item);
    Success(c.(items := items))
  }

  /** Construction, adding and removing keep a carousel homogeneous, so only the card
      check and the items' own checks can fail its validation. */
  lemma {:induction false} HomogeneousKept(c: Component, item: Component, items: seq<Component>)
    requires c.CarouselComponent? && Homogeneous(c)
    ensures Homogeneous(NewCarousel([])) && (|items| > 0 && (forall i | 0 <= i < |items| :: items[i].KindOf() == items[0].KindOf()) ==> Homogeneous(NewCarousel(items)))
    ensures AddCarouselItem(c, item).Success? ==> Homogeneous(AddCarouselItem(c, item).value)
    ensures RemoveCarouselItem(c, item).Success? ==> Homogeneous(RemoveCarouselItem(c, item).value)
  {
    if AddCarouselItem(c, item).Success? {
      var d := AddCarouselItem(c, item).value;
      if |c.items| > 0 {
        assert forall i | 0 <= i < |d.items| :: d.items[i].KindOf() == d.kind.value by {
          forall i | 0 <= i < |d.items| ensures d.items[i].KindOf() == d.kind.value {
            if i < |c.items| { assert d.items[i] == c.items[i]; }
          }
        }
      }
    }
    if RemoveCarouselItem(c, item).Success? {
      var d := RemoveCarouselItem(c, item).value;
      var k := IndexOf(c.items, item);
      forall i | 0 <= i < |d.items| ensures d.items[i].KindOf() == d.kind.value {
        if i < k { assert d.items[i] == c.items[i]; } else { assert d.items[i] == c.items[i + 1]; }
      }
    }
  }

  /** A homogeneous carousel of cards validates exactly when it has items and each item
      validates. */
  lemma HomogeneousValidates(c: Component)
    requires c.CarouselComponent? && Homogeneous(c) && (|c.items| > 0 ==> c.kind.value.IsCard())
    ensures Validate(c).Success? <==> |c.items| > 0 && forall i | 0 <= i < |c.items| :: ValidateCard(c.items[i].card).Success?
  {
  }

  /** Adding an item to a carousel and removing it again gives back the items, as long
      as the item was not there before. */
  lemma AddThenRemoveCarouselItem(c: Component, item: Component)
    requires c.CarouselComponent? && item !in c.items
    requires AddCarouselItem(c, item).Success?
    ensures RemoveCarouselItem(AddCarouselItem(c, item).value, item).Success?
    ensures RemoveCarouselItem(AddCarouselItem(c, item).value, item).value.items == c.items
  {
    RemoveAppended(c.items, item);
  }

  // ------------------------------------------------------------ is_empty

  /** `SkillTemplate.is_empty` for every component: `not bool(self.render())`, except
      the carousel, which overrides it with `not bool(self.items)` and never renders. */
  function IsEmpty(c: Component): (r: Result<bool, Error>)
    ensures c.CarouselComponent? ==> r == Success(|c.items| == 0)
    ensures !c.CarouselComponent? ==> (r.Success? <==> Render(c).Success?)
  {
    if c.CarouselComponent? then Success(|c.items| == 0)
    else
      var d :- Render(c);
      Success(!Truthy(VDict(d)))
  }

  /** A component other than a carousel that renders at all is never empty. */
  lemma RenderedNeverEmpty(c: Component)
    requires !c.CarouselComponent? && Render(c).Success?
    ensures IsEmpty(c) == Success(false)
  {
    if c.CardComponent? {
      CardNeverEmpty(c.card);
    }
  }
}
