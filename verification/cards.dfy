/** The card components (kakao/response/components/card.py) and their common base
    `ParentCardComponent` (kakao/response/components/base.py): TextCard, BasicCard,
    CommerceCard, ListCard and ItemCard. Every `validate` starts with the base class's
    button check; every `render` validates, renders the nested objects in dict order
    and drops None values. The base class's name check is in `Components`. */
module Cards {
  import opened Wrappers
  import opened Errors
  import opened PyValue
  import opened KakaoBase
  import opened Validation
  import opened Lists
  import opened Each
  import opened Common
  import opened ItemCardParts
  import Interaction

  type Buttons = seq<Ref<Button>>

  // ------------------------------------------------ ParentCardComponent

  /** What the base class's button check accepts: a Button or None in every place,
      however many there are. */
  predicate ButtonsValid(buttons: Buttons) {
    forall i | 0 <= i < |buttons| :: buttons[i].Inst? || buttons[i].IsNone()
  }

  /** `ParentCardComponent.validate` after the name check. */
  function ValidateButtons(buttons: Buttons): (r: Outcome)
    ensures r.Success? <==> ButtonsValid(buttons)
    ensures r.Failure? ==> r.error == InvalidTypeError
  {
    ValidateRefs(buttons, false, InvalidTypeError)
  }

  /** Whether every button renders (a None button has no `render`). */
  predicate ButtonsRender(buttons: Buttons) {
    forall i | 0 <= i < |buttons| :: Renders(buttons[i], RenderButton)
  }

  /** The "buttons" value of every card: the rendered buttons, or None when there are
      none, so that the key is dropped. */
  function RenderButtons(buttons: Buttons): (r: Result<Value, Error>)
    ensures r.Success? <==> ButtonsRender(buttons)
    ensures |buttons| == 0 ==> r == Success(VNone)
    ensures |buttons| > 0 && r.Success? ==> r.value == VList(RenderEach(buttons, RenderButton).value)
  {
    if |buttons| == 0 then Success(VNone)
    else
      var rendered :- RenderEach(buttons, RenderButton);
      Success(VList(rendered))
  }

  /** An argument of `add_button` or `ListCard.add_item`: an instance of the class being
      added, a `Link`, an `ActionEnum` member, or any other value (other objects are
      `VObject`). */
  datatype CardArg<T> = ObjArg(obj: T) | LinkArg(link: Link) | MemberArg(kind: Interaction.ActionKind) | ValueArg(v: Value)
  {
    /** The argument appended to a list as it is. */
    function AsRef(): Ref<T> {
      match this
      case ObjArg(x) => Inst(x)
      case ValueArg(v) => Plain(v)
      case _ => Plain(VObject)
    }

    /** The argument stored as a plain attribute. */
    function AsValue(): Value {
      if ValueArg? then v else VObject
    }

    /** The argument given as `action`. */
    function AsAction(): Interaction.ActionArg {
      match this
      case MemberArg(kind) => Interaction.ByMember(kind)
      case ValueArg(v) => Interaction.ByValue(v)
      case _ => Interaction.ByValue(VObject)
    }

    /** The argument given as `link`. */
    function AsLink(): Ref<Link> {
      match this
      case LinkArg(l) => Inst(l)
      case ValueArg(v) => Plain(v)
      case _ => Plain(VObject)
    }
  }

  /** The parameters of `Button.__init__`; `label` and `action` have no default. */
  const ButtonParams: seq<string> := ["label", "action", "web_link_url", "message_text", "phone_number", "block_id", "extra"]
  const ButtonDefaults: seq<CardArg<Button>> := [ValueArg(VNone), ValueArg(VNone), ValueArg(VNone), ValueArg(VNone), ValueArg(VNone), ValueArg(VNone), ValueArg(VNone)]

  /** `Button(*args, **kwargs)`: TypeError when the arguments do not bind, otherwise the
      constructor. */
  function ButtonOf(call: Call<CardArg<Button>>): (r: Result<Button, Error>)
    ensures !Binds(ButtonParams, 2, call) ==> r == Failure(TypeError)
    ensures Binds(ButtonParams, 2, call) ==> r == NewButton(
      BoundArg(ButtonParams, 2, ButtonDefaults, call, 0).AsValue(),
      BoundArg(ButtonParams, 2, ButtonDefaults, call, 1).AsAction(),
      BoundArg(ButtonParams, 2, ButtonDefaults, call, 2).AsValue(),
      BoundArg(ButtonParams, 2, ButtonDefaults, call, 3).AsValue(),
      BoundArg(ButtonParams, 2, ButtonDefaults, call, 4).AsValue(),
      BoundArg(ButtonParams, 2, ButtonDefaults, call, 5).AsValue(),
      BoundArg(ButtonParams, 2, ButtonDefaults, call, 6).AsValue())
  {
    if !Binds(ButtonParams, 2, call) then Failure(TypeError)
    else
      NewButton(
        BoundArg(ButtonParams, 2, ButtonDefaults, call, 0).AsValue(),
        BoundArg(ButtonParams, 2, ButtonDefaults, call, 1).AsAction(),
        BoundArg(ButtonParams, 2, ButtonDefaults, call, 2).AsValue(),
        BoundArg(ButtonParams, 2, ButtonDefaults, call, 3).AsValue(),
        BoundArg(ButtonParams, 2, ButtonDefaults, call, 4).AsValue(),
        BoundArg(ButtonParams, 2, ButtonDefaults, call, 5).AsValue(),
        BoundArg(ButtonParams, 2, ButtonDefaults, call, 6).AsValue())
  }

  /** The parameters of `ListItem.__init__`; only `title` has no default. */
  const ListItemParams: seq<string> := ["title", "description", "image_url", "link", "action", "block_id", "message_text", "extra"]
  const ListItemDefaults: seq<CardArg<ListItem>> :=
    [ValueArg(VNone), ValueArg(VNone), ValueArg(VNone), ValueArg(VNone), ValueArg(VNone), ValueArg(VNone), ValueArg(VNone), ValueArg(VNone)]

  /** `ListItem(*args, **kwargs)`: TypeError when the arguments do not bind, otherwise
      the constructor. */
  function ListItemOf(call: Call<CardArg<ListItem>>): (r: Result<ListItem, Error>)
    ensures !Binds(ListItemParams, 1, call) ==> r == Failure(TypeError)
    ensures Binds(ListItemParams, 1, call) ==> r == NewListItem(
      BoundArg(ListItemParams, 1, ListItemDefaults, call, 0).AsValue(),
      BoundArg(ListItemParams, 1, ListItemDefaults, call, 1).AsValue(),
      BoundArg(ListItemParams, 1, ListItemDefaults, call, 2).AsValue(),
      BoundArg(ListItemParams, 1, ListItemDefaults, call, 3).AsLink(),
      BoundArg(ListItemParams, 1, ListItemDefaults, call, 4).AsAction(),
      BoundArg(ListItemParams, 1, ListItemDefaults, call, 5).AsValue(),
      BoundArg(ListItemParams, 1, ListItemDefaults, call, 6).AsValue(),
      BoundArg(ListItemParams, 1, ListItemDefaults, call, 7).AsValue())
  {
    if !Binds(ListItemParams, 1, call) then Failure(TypeError)
    else
      NewListItem(
        BoundArg(ListItemParams, 1, ListItemDefaults, call, 0).AsValue(),
        BoundArg(ListItemParams, 1, ListItemDefaults, call, 1).AsValue(),
        BoundArg(ListItemParams, 1, ListItemDefaults, call, 2).AsValue(),
        BoundArg(ListItemParams, 1, ListItemDefaults, call, 3).AsLink(),
        BoundArg(ListItemParams, 1, ListItemDefaults, call, 4).AsAction(),
        BoundArg(ListItemParams, 1, ListItemDefaults, call, 5).AsValue(),
        BoundArg(ListItemParams, 1, ListItemDefaults, call, 6).AsValue(),
        BoundArg(ListItemParams, 1, ListItemDefaults, call, 7).AsValue())
  }

  /** Whether the call is one the dispatch below passes on to the constructor: neither a
      lone instance nor, without positional arguments, the `keyword` argument. */
  predicate Constructs<T>(call: Call<CardArg<T>>, keyword: string) {
    !(|call.args| == 1 && call.args[0].ObjArg?) && !(|call.args| == 0 && HasKw(call.kwargs, keyword))
  }

  /** The dispatch of `add_button` and `ListCard.add_item`: a lone instance argument is
      appended; with no positional argument, the `keyword` argument is appended as it
      is; otherwise the object the constructor builds from the arguments (`built`) is
      appended, or its exception raised. */
  function AppendFromCall<T>(xs: seq<Ref<T>>, call: Call<CardArg<T>>, keyword: string,
                             built: Result<T, Error>): (r: Result<seq<Ref<T>>, Error>)
    ensures r.Success? ==> |r.value| == |xs| + 1 && r.value[..|xs|] == xs
    ensures |call.args| == 1 && call.args[0].ObjArg? ==> r == Success(xs + [Inst(call.args[0].obj)])
    ensures |call.args| == 0 && HasKw(call.kwargs, keyword) ==> r == Success(xs + [Kw(call.kwargs, keyword).AsRef()])
    ensures Constructs(call, keyword) ==>
      && (r.Success? <==> built.Success?)
      && (r.Success? ==> r.value[|xs|] == Inst(built.value))
      && (r.Failure? ==> r.error == built.error)
  {
    if |call.args| == 1 && call.args[0].ObjArg? then Success(xs + [Inst(call.args[0].obj)])
    else if |call.args| == 0 && HasKw(call.kwargs, keyword) then Success(xs + [Kw(call.kwargs, keyword).AsRef()])
    else
      var x :- built;
      Success(xs + [Inst(x)])
  }

  /** `add_button(*args, **kwargs)`: a Button given alone or as `button=` is appended;
      any other call builds `Button(*args, **kwargs)` and appends it, or raises what the
      constructor raises. */
  function AddButton(buttons: Buttons, call: Call<CardArg<Button>>): (r: Result<Buttons, Error>)
    ensures r.Success? ==> |r.value| == |buttons| + 1 && r.value[..|buttons|] == buttons
    ensures |call.args| == 1 && call.args[0].ObjArg? ==> r == Success(buttons + [Inst(call.args[0].obj)])
    ensures |call.args| == 0 && HasKw(call.kwargs, "button") ==> r == Success(buttons + [Kw(call.kwargs, "button").AsRef()])
    ensures Constructs(call, "button") ==>
      && (r.Success? <==> ButtonOf(call).Success?)
      && (r.Success? ==> r.value[|buttons|] == Inst(ButtonOf(call).value))
      && (r.Failure? ==> r.error == ButtonOf(call).error)
  {
    AppendFromCall(buttons, call, "button", ButtonOf(call))
  }

  /** The call `Button("메뉴 보기", "message", message_text=t)`. */
  function MessageButtonCall(t: Value): Call<CardArg<Button>> {
    Call([ValueArg(VStr("메뉴 보기")), ValueArg(VStr("message"))], [("message_text", ValueArg(t))])
  }

  /** `Button("메뉴 보기", "message", message_text=t)` binds the label and the action by
      position and the text by keyword, and leaves the other parameters at None. */
  lemma MessageButtonBinds(t: Value)
    ensures Binds(ButtonParams, 2, MessageButtonCall(t))
    ensures BoundArg(ButtonParams, 2, ButtonDefaults, MessageButtonCall(t), 0) == ValueArg(VStr("메뉴 보기"))
    ensures BoundArg(ButtonParams, 2, ButtonDefaults, MessageButtonCall(t), 1) == ValueArg(VStr("message"))
    ensures BoundArg(ButtonParams, 2, ButtonDefaults, MessageButtonCall(t), 3) == ValueArg(t)
    ensures forall i | i in {2, 4, 5, 6} :: BoundArg(ButtonParams, 2, ButtonDefaults, MessageButtonCall(t), i) == ValueArg(VNone)
  {
    var call := MessageButtonCall(t);
    assert ButtonParams[3] == call.kwargs[0].0;
    assert Binds(ButtonParams, 2, call);
    forall i | i in {2, 4, 5, 6}
      ensures BoundArg(ButtonParams, 2, ButtonDefaults, call, i) == ValueArg(VNone)
    {
      assert ButtonParams[i][0] != call.kwargs[0].0[0];
      assert !HasKw(call.kwargs, ButtonParams[i]);
    }
  }

  /** The message button that call builds. */
  lemma MessageButtonOf(t: Value)
    ensures ButtonOf(MessageButtonCall(t))
      == Success(Button(VStr("메뉴 보기"), Some(Interaction.Message), VNone, t, VNone, VNone, VNone))
  {
    MessageButtonBinds(t);
    Interaction.ProcessActionByValue(Interaction.Message);
  }

  /** `add_button("메뉴 보기", "message", message_text=t)` appends the message button
      holding that label and text; `add_button(label)` alone lacks the action and
      raises TypeError. */
  lemma AddMessageButton(buttons: Buttons, t: Value)
    ensures AddButton(buttons, Call([ValueArg(VStr("메뉴 보기")), ValueArg(VStr("message"))], [("message_text", ValueArg(t))]))
      == Success(buttons + [Inst(Button(VStr("메뉴 보기"), Some(Interaction.Message), VNone, t, VNone, VNone, VNone))])
    ensures AddButton(buttons, Call([ValueArg(VStr("메뉴 보기"))], [])) == Failure(TypeError)
  {
    MessageButtonOf(t);
    var lone: Call<CardArg<Button>> := Call([ValueArg(VStr("메뉴 보기"))], []);
    assert !HasKw(lone.kwargs, ButtonParams[1]);
  }

  /** `remove_button` undoes `add_button` when the added button was not already there. */
  lemma AddThenRemoveButton(buttons: Buttons, call: Call<CardArg<Button>>)
    requires AddButton(buttons, call).Success?
    requires AddButton(buttons, call).value[|buttons|] !in buttons
    ensures var added := AddButton(buttons, call).value;
      Remove(added, added[|buttons|]) == Success(buttons)
  {
    var added := AddButton(buttons, call).value;
    assert added == buttons + [added[|buttons|]];
    RemoveAppended(buttons, added[|buttons|]);
  }

  // ------------------------------------------------------------ TextCard

  datatype TextCard = TextCard(title: Value, description: Value, buttons: Buttons)

  const TextCardEmpty := "title과 description 중 최소 하나는 None이 아니어야 합니다."

  /** Title or description set; the title must be a str when set, and only when it is
      not does the description have to be one. */
  predicate TextCardValid(c: TextCard) {
    && ButtonsValid(c.buttons)
    && !(c.title.VNone? && c.description.VNone?)
    && (if c.title.VNone? then c.description.VStr? else c.title.VStr?)
  }

  /** `TextCard.validate`. */
  function ValidateTextCard(c: TextCard): (r: Outcome)
    ensures r.Success? <==> TextCardValid(c)
    ensures ButtonsValid(c.buttons) && c.title.VNone? && c.description.VNone? ==> r == Failure(ValueError(TextCardEmpty))
    ensures ButtonsValid(c.buttons) && c.title.VStr? ==> r.Success?
    ensures r.Failure? ==> r.error == InvalidTypeError || r.error == ValueError(TextCardEmpty)
  {
    var _ :- ValidateButtons(c.buttons);
    var _ :- Require(!(c.title.VNone? && c.description.VNone?), ValueError(TextCardEmpty));
    assert [c.title][0] == c.title && [c.description][0] == c.description;
    if c.title.VNone? then ValidateStr([c.description], false) else ValidateStr([c.title], false)
  }

  /** `TextCard.render` (see `TextCardContents`). */
  function RenderTextCard(c: TextCard): (r: Result<Dict, Error>)
    ensures r.Success? <==> TextCardValid(c) && ButtonsRender(c.buttons)
  {
    var _ :- ValidateTextCard(c);
    var buttons :- RenderButtons(c.buttons);
    Success(RemoveNone([("title", c.title), ("description", c.description), ("buttons", buttons)]))
  }

  /** A rendered text card holds the title and the description when they are set (at
      least one is), and "buttons" exactly when there are buttons. */
  lemma TextCardContents(c: TextCard)
    requires RenderTextCard(c).Success?
    ensures var out := RenderTextCard(c).value;
      && (("title", c.title) in out <==> !c.title.VNone?)
      && (("description", c.description) in out <==> !c.description.VNone?)
      && (HasKey(out, "buttons") <==> |c.buttons| > 0)
      && |out| >= 1
  {
    var buttons := RenderButtons(c.buttons).value;
    TextCardEntries(c, buttons, RenderTextCard(c).value);
  }

  lemma TextCardEntries(c: TextCard, buttons: Value, out: Dict)
    requires out == RemoveNone([("title", c.title), ("description", c.description), ("buttons", buttons)])
    requires !(c.title.VNone? && c.description.VNone?)
    requires buttons.VNone? <==> |c.buttons| == 0
    ensures ("title", c.title) in out <==> !c.title.VNone?
    ensures ("description", c.description) in out <==> !c.description.VNone?
    ensures HasKey(out, "buttons") <==> |c.buttons| > 0
    ensures |out| >= 1
  {
    if |c.buttons| > 0 {
      assert ("buttons", buttons) in out;
    }
    if !c.title.VNone? {
      assert ("title", c.title) in out;
    }
  }

  // ----------------------------------------------------------- BasicCard

  /** `forwardable` defaults to False. */
  datatype BasicCard = BasicCard(thumbnail: Ref<Thumbnail>, title: Value, description: Value,
                                 buttons: Buttons, forwardable: Value)

  /** The thumbnail may be None here; only `render` trips over it. */
  predicate BasicCardValid(c: BasicCard) {
    && ButtonsValid(c.buttons)
    && (c.thumbnail.Inst? || c.thumbnail.IsNone())
    && StrOrNone(c.title) && StrOrNone(c.description)
  }

  /** `BasicCard.validate`. */
  function ValidateBasicCard(c: BasicCard): (r: Outcome)
    ensures r.Success? <==> BasicCardValid(c)
    ensures r.Failure? ==> r.error == InvalidTypeError
  {
    var _ :- ValidateButtons(c.buttons);
    assert [c.thumbnail][0] == c.thumbnail && [c.title, c.description][1] == c.description;
    var _ :- ValidateRefs([c.thumbnail], false, InvalidTypeError);
    ValidateStr([c.title, c.description], false)
  }

  /** `BasicCard.render`: `thumbnail.render()` is called unconditionally, so a card that
      passed `validate` with a None thumbnail raises AttributeError (see
      `BasicCardContents`). */
  function RenderBasicCard(c: BasicCard): (r: Result<Dict, Error>)
    ensures r.Success? <==> BasicCardValid(c) && c.thumbnail.Inst?
                            && RenderThumbnail(c.thumbnail.obj).Success? && ButtonsRender(c.buttons)
    ensures BasicCardValid(c) && c.thumbnail.IsNone() ==> r == Failure(AttributeError)
  {
    var _ :- ValidateBasicCard(c);
    var thumbnail :- if c.thumbnail.Inst? then RenderThumbnail(c.thumbnail.obj) else Failure(AttributeError);
    var buttons :- RenderButtons(c.buttons);
    Success(RemoveNone([("thumbnail", VDict(thumbnail)), ("title", c.title), ("description", c.description),
                        ("buttons", buttons), ("forwardable", c.forwardable)]))
  }

  /** A rendered basic card always holds the rendered thumbnail, holds the forwardable
      flag whenever it is set (as it is by default), and "buttons" exactly when there
      are buttons. */
  lemma BasicCardContents(c: BasicCard)
    requires RenderBasicCard(c).Success?
    ensures var out := RenderBasicCard(c).value;
      && ("thumbnail", VDict(RenderThumbnail(c.thumbnail.obj).value)) in out
      && (("forwardable", c.forwardable) in out <==> !c.forwardable.VNone?)
      && (("title", c.title) in out <==> !c.title.VNone?)
      && (("description", c.description) in out <==> !c.description.VNone?)
      && (HasKey(out, "buttons") <==> |c.buttons| > 0)
  {
    BasicCardEntries(c, VDict(RenderThumbnail(c.thumbnail.obj).value), RenderButtons(c.buttons).value,
                     RenderBasicCard(c).value);
  }

  lemma BasicCardEntries(c: BasicCard, thumbnail: Value, buttons: Value, out: Dict)
    requires out == RemoveNone([("thumbnail", thumbnail), ("title", c.title), ("description", c.description),
                                ("buttons", buttons), ("forwardable", c.forwardable)])
    requires thumbnail.VDict?
    requires buttons.VNone? <==> |c.buttons| == 0
    ensures ("thumbnail", thumbnail) in out
    ensures ("forwardable", c.forwardable) in out <==> !c.forwardable.VNone?
    ensures ("title", c.title) in out <==> !c.title.VNone?
    ensures ("description", c.description) in out <==> !c.description.VNone?
    ensures HasKey(out, "buttons") <==> |c.buttons| > 0
  {
    var base := [("thumbnail", thumbnail), ("title", c.title), ("description", c.description),
                 ("buttons", buttons), ("forwardable", c.forwardable)];
    StrippedEntryAt(base, 0);
    StrippedEntryAt(base, 1);
    StrippedEntryAt(base, 2);
    StrippedEntryAt(base, 4);
    assert forall j | 0 <= j < |base| && j != 3 :: |base[j].0| != 7;
    StrippedKeyAt(base, 3);
  }

  // -------------------------------------------------------- CommerceCard

  datatype CommerceCard = CommerceCard(
    price: Value, thumbnails: seq<Ref<Thumbnail>>, title: Value, description: Value,
    buttons: Buttons, profile: Ref<Profile>, currency: Value,
    discount: Value, discountRate: Value, discountPrice: Value)

  /** The `thumbnails` argument: a single Thumbnail, or a list. */
  datatype ThumbnailsArg = OneThumbnail(t: Thumbnail) | ThumbnailList(ts: seq<Ref<Thumbnail>>)

  /** `CommerceCard.__init__`: a lone Thumbnail is wrapped in a list, and no buttons
      means an empty list. */
  function NewCommerceCard(price: Value, thumbnails: ThumbnailsArg, title: Value, description: Value,
                           buttons: Option<Buttons>, profile: Ref<Profile>, currency: Value,
                           discount: Value, discountRate: Value, discountPrice: Value): (c: CommerceCard)
    ensures thumbnails.OneThumbnail? ==> c.thumbnails == [Inst(thumbnails.t)]
    ensures thumbnails.ThumbnailList? ==> c.thumbnails == thumbnails.ts
    ensures buttons.None? ==> c.buttons == []
    ensures c.price == price && c.discount == discount && c.discountRate == discountRate
            && c.discountPrice == discountPrice && c.currency == currency
  {
    var ts := match thumbnails
      case OneThumbnail(t) => [Inst(t)]
      case ThumbnailList(ts) => ts;
    CommerceCard(price, ts, title, description, buttons.GetOr([]), profile, currency,
                 discount, discountRate, discountPrice)
  }

  predicate ThumbnailsValid(ts: seq<Ref<Thumbnail>>) {
    forall i | 0 <= i < |ts| :: ts[i].Inst? || ts[i].IsNone()
  }

  /** A non-None int price; a truthy currency must be exactly "won"; discounts are only
      type-checked, never related to the price or to each other. */
  predicate CommerceCardValid(c: CommerceCard) {
    && ButtonsValid(c.buttons)
    && (c.price.VInt? || c.price.VBool?)
    && ThumbnailsValid(c.thumbnails)
    && StrOrNone(c.title) && StrOrNone(c.description)
    && (Truthy(c.currency) ==> c.currency == VStr("won"))
    && IntOrNone(c.discount) && IntOrNone(c.discountRate) && IntOrNone(c.discountPrice)
    && (c.profile.Inst? || c.profile.IsNone())
  }

  /** `CommerceCard.validate`: buttons, price, thumbnails, texts, currency, discounts,
      profile, in that order; a wrong currency is an AssertionError. */
  function ValidateCommerceCard(c: CommerceCard): (r: Outcome)
    ensures r.Success? <==> CommerceCardValid(c)
    ensures r.Failure? ==> r.error == InvalidTypeError || r.error == AssertionError
    ensures r.Failure? && r.error == AssertionError ==> Truthy(c.currency) && c.currency != VStr("won")
  {
    var _ :- ValidateButtons(c.buttons);
    assert [c.price][0] == c.price && [c.profile][0] == c.profile;
    var _ :- ValidateInt([c.price], true);
    var _ :- ValidateRefs(c.thumbnails, false, InvalidTypeError);
    var texts := [c.title, c.description];
    assert texts[0] == c.title && texts[1] == c.description;
    var _ :- ValidateStr(texts, false);
    var _ :- if Truthy(c.currency) then Require(c.currency == VStr("won"), AssertionError) else Pass;
    var discounts := [c.discount, c.discountPrice, c.discountRate, c.discountPrice];
    assert discounts[0] == c.discount && discounts[1] == c.discountPrice && discounts[2] == c.discountRate;
    var _ :- ValidateInt(discounts, false);
    ValidateRefs([c.profile], false, InvalidTypeError)
  }

  /** `CommerceCard.render` (see `CommerceCardContents`). */
  function RenderCommerceCard(c: CommerceCard): (r: Result<Dict, Error>)
    ensures r.Success? <==> CommerceCardValid(c)
                            && (forall i | 0 <= i < |c.thumbnails| :: Renders(c.thumbnails[i], RenderThumbnail))
                            && ButtonsRender(c.buttons)
  {
    var _ :- ValidateCommerceCard(c);
    var thumbnails :- RenderEach(c.thumbnails, RenderThumbnail);
    var profile := if c.profile.Inst? then VDict(RenderProfile(c.profile.obj)) else VNone;
    var buttons :- RenderButtons(c.buttons);
    Success(RemoveNone(CommerceCardResponse(c, VList(thumbnails), profile, buttons)))
  }

  /** The dict `CommerceCard.render` strips. */
  function CommerceCardResponse(c: CommerceCard, thumbnails: Value, profile: Value, buttons: Value): Dict {
    [("price", c.price), ("thumbnails", thumbnails), ("title", c.title), ("description", c.description),
     ("currency", c.currency), ("discount", c.discount), ("discountRate", c.discountRate),
     ("discountPrice", c.discountPrice), ("profile", profile), ("buttons", buttons)]
  }

  /** A rendered commerce card always holds the price and the list of rendered
      thumbnails (possibly empty); the currency and the three discount values are
      passed through unchanged exactly when set; the profile appears exactly when one
      is attached, and "buttons" exactly when there are buttons. */
  lemma CommerceCardContents(c: CommerceCard)
    requires RenderCommerceCard(c).Success?
    ensures var out := RenderCommerceCard(c).value;
      && ("price", c.price) in out
      && ("thumbnails", VList(RenderEach(c.thumbnails, RenderThumbnail).value)) in out
      && (("currency", c.currency) in out <==> !c.currency.VNone?)
      && (("discount", c.discount) in out <==> !c.discount.VNone?)
      && (("discountRate", c.discountRate) in out <==> !c.discountRate.VNone?)
      && (("discountPrice", c.discountPrice) in out <==> !c.discountPrice.VNone?)
      && (HasKey(out, "profile") <==> c.profile.Inst?)
      && (HasKey(out, "buttons") <==> |c.buttons| > 0)
  {
    var profile := if c.profile.Inst? then VDict(RenderProfile(c.profile.obj)) else VNone;
    CommerceCardEntries(c, VList(RenderEach(c.thumbnails, RenderThumbnail).value), profile,
                        RenderButtons(c.buttons).value, RenderCommerceCard(c).value);
  }

  lemma CommerceCardEntries(c: CommerceCard, thumbnails: Value, profile: Value, buttons: Value, out: Dict)
    requires out == RemoveNone(CommerceCardResponse(c, thumbnails, profile, buttons))
    requires c.price.VInt? || c.price.VBool?
    requires thumbnails.VList?
    requires profile.VNone? <==> !c.profile.Inst?
    requires buttons.VNone? <==> |c.buttons| == 0
    ensures ("price", c.price) in out
    ensures ("thumbnails", thumbnails) in out
    ensures ("currency", c.currency) in out <==> !c.currency.VNone?
    ensures ("discount", c.discount) in out <==> !c.discount.VNone?
    ensures ("discountRate", c.discountRate) in out <==> !c.discountRate.VNone?
    ensures ("discountPrice", c.discountPrice) in out <==> !c.discountPrice.VNone?
    ensures HasKey(out, "profile") <==> c.profile.Inst?
    ensures HasKey(out, "buttons") <==> |c.buttons| > 0
  {
    var base := CommerceCardResponse(c, thumbnails, profile, buttons);
    StrippedEntryAt(base, 0);
    StrippedEntryAt(base, 1);
    StrippedEntryAt(base, 4);
    StrippedEntryAt(base, 5);
    StrippedEntryAt(base, 6);
    StrippedEntryAt(base, 7);
    CommerceCardKeys(base, c, thumbnails, profile, buttons);
    StrippedKeyAt(base, 8);
    StrippedKeyAt(base, 9);
  }

  /** "profile" and "buttons" are each carried by one entry of a commerce card's
      response. */
  lemma CommerceCardKeys(base: Dict, c: CommerceCard, thumbnails: Value, profile: Value, buttons: Value)
    requires base == CommerceCardResponse(c, thumbnails, profile, buttons)
    ensures forall j | 0 <= j < |base| && j != 8 :: base[j].0 != base[8].0
    ensures forall j | 0 <= j < |base| && j != 9 :: base[j].0 != base[9].0
  {
    assert "profile"[0] != "buttons"[0];
    assert forall j | 0 <= j < |base| && j != 8 && j != 9 :: |base[j].0| != 7;
  }

  // ------------------------------------------------------------ ListCard

  datatype ListCard = ListCard(header: Ref<ListItem>, items: seq<Ref<ListItem>>, buttons: Buttons,
                               maxButtons: int, maxItems: int)

  const DefaultMaxButtons := 2
  const DefaultMaxItems := 5

  /** `ListItem(title=header)`: the list item a plain str header becomes. */
  function TitleItem(title: string): ListItem {
    ListItem(VStr(title), VNone, VNone, Plain(VNone), None, VNone, VNone, VNone)
  }

  /** `ListCard.__init__`: a str header becomes a list item titled with it, anything
      else is kept; no items and no buttons mean empty lists. */
  function NewListCard(header: Ref<ListItem>, items: Option<seq<Ref<ListItem>>>, buttons: Option<Buttons>,
                       maxButtons: int, maxItems: int): (c: ListCard)
    ensures header.Plain? && header.v.VStr? ==> c.header == Inst(TitleItem(header.v.s))
    ensures !(header.Plain? && header.v.VStr?) ==> c.header == header
    ensures items.None? ==> c.items == []
    ensures buttons.None? ==> c.buttons == []
  {
    var h := if header.Plain? && header.v.VStr? then Inst(TitleItem(header.v.s)) else header;
    ListCard(h, items.GetOr([]), buttons.GetOr([]), maxButtons, maxItems)
  }

  /** The item a str header becomes is the one the ListItem constructor builds from
      that title alone, and it is valid. */
  lemma TitleItemIsConstructed(title: string)
    ensures NewListItem(VStr(title), VNone, VNone, Plain(VNone), Interaction.ByValue(VNone), VNone, VNone, VNone)
            == Success(TitleItem(title))
    ensures ListItemValid(TitleItem(title))
  {
  }

  /** Between one and `max_items` items, at most `max_buttons` buttons, a ListItem header
      and items that are ListItems or None. */
  predicate ListCardValid(c: ListCard) {
    && ButtonsValid(c.buttons)
    && 1 <= |c.items| <= c.maxItems
    && |c.buttons| <= c.maxButtons
    && c.header.Inst?
    && (forall i | 0 <= i < |c.items| :: c.items[i].Inst? || c.items[i].IsNone())
  }

  /** `ListCard.validate`: the counts are checked with AssertionError before the types. */
  function ValidateListCard(c: ListCard): (r: Outcome)
    ensures r.Success? <==> ListCardValid(c)
    ensures ButtonsValid(c.buttons) && !(1 <= |c.items| <= c.maxItems) ==> r == Failure(AssertionError)
    ensures ButtonsValid(c.buttons) && |c.buttons| > c.maxButtons ==> r == Failure(AssertionError)
    ensures r.Failure? ==> r.error == InvalidTypeError || r.error == AssertionError
  {
    var _ :- ValidateButtons(c.buttons);
    var _ :- Require(|c.items| >= 1, AssertionError);
    var _ :- Require(|c.items| <= c.maxItems, AssertionError);
    var _ :- Require(|c.buttons| <= c.maxButtons, AssertionError);
    assert [c.header][0] == c.header;
    var _ :- ValidateRefs([c.header], true, InvalidTypeError);
    ValidateRefs(c.items, false, InvalidTypeError)
  }

  /** `ListCard.render`: the rendered header, the rendered items, and the rendered
      buttons when there are any (see `ListCardContents`). */
  function RenderListCard(c: ListCard): (r: Result<Dict, Error>)
    ensures r.Success? <==> ListCardValid(c) && RenderListItem(c.header.obj).Success?
                            && (forall i | 0 <= i < |c.items| :: Renders(c.items[i], RenderListItem))
                            && ButtonsRender(c.buttons)
  {
    var _ :- ValidateListCard(c);
    var header :- RenderListItem(c.header.obj);
    var items :- if |c.items| > 0 then RenderEach(c.items, RenderListItem) else Success([]);
    var buttons :- RenderButtons(c.buttons);
    Success(RemoveNone([("header", VDict(header)), ("items", VList(items)), ("buttons", buttons)]))
  }

  /** A rendered list card starts with the rendered header and the list of rendered
      items, one per item, and ends with the buttons when there are any. */
  lemma ListCardContents(c: ListCard)
    requires RenderListCard(c).Success?
    ensures var out := RenderListCard(c).value;
      && |out| >= 2
      && out[0] == ("header", VDict(RenderListItem(c.header.obj).value))
      && out[1] == ("items", VList(RenderEach(c.items, RenderListItem).value))
      && |RenderEach(c.items, RenderListItem).value| == |c.items|
      && (|out| == 3 <==> |c.buttons| > 0)
  {
    ListCardEntries(VDict(RenderListItem(c.header.obj).value), VList(RenderEach(c.items, RenderListItem).value),
                    RenderButtons(c.buttons).value, RenderListCard(c).value);
  }

  lemma ListCardEntries(header: Value, items: Value, buttons: Value, out: Dict)
    requires out == RemoveNone([("header", header), ("items", items), ("buttons", buttons)])
    requires header.VDict? && items.VList?
    ensures |out| >= 2 && out[0] == ("header", header) && out[1] == ("items", items)
    ensures |out| == 3 <==> !buttons.VNone?
  {
    var base := [("header", header), ("items", items), ("buttons", buttons)];
    assert base[1..][1..] == [("buttons", buttons)];
    assert RemoveNone([("buttons", buttons)]) == if buttons.VNone? then [] else [("buttons", buttons)];
    assert out == [base[0], base[1]] + RemoveNone([("buttons", buttons)]);
  }

  /** `ListCard.add_item(*args, **kwargs)`: a ListItem given alone or as `item=` is
      appended; any other call builds `ListItem(*args, **kwargs)` and appends it, or
      raises what the constructor raises. */
  function AddListItem(c: ListCard, call: Call<CardArg<ListItem>>): (r: Result<ListCard, Error>)
    ensures r.Success? ==> r.value.header == c.header && r.value.buttons == c.buttons
                           && |r.value.items| == |c.items| + 1 && r.value.items[..|c.items|] == c.items
    ensures |call.args| == 1 && call.args[0].ObjArg? ==> r == Success(c.(items := c.items + [Inst(call.args[0].obj)]))
    ensures |call.args| == 0 && HasKw(call.kwargs, "item") ==> r == Success(c.(items := c.items + [Kw(call.kwargs, "item").AsRef()]))
    ensures Constructs(call, "item") ==>
      && (r.Success? <==> ListItemOf(call).Success?)
      && (r.Success? ==> r.value.items[|c.items|] == Inst(ListItemOf(call).value))
      && (r.Failure? ==> r.error == ListItemOf(call).error)
  {
    var items :- AppendFromCall(c.items, call, "item", ListItemOf(call));
    Success(c.(items := items))
  }

  /** `add_item("제목")` appends a list item with that title and nothing else set;
      `add_item()` lacks the title and raises TypeError. */
  lemma AddTitledListItem(c: ListCard, title: Value)
    ensures AddListItem(c, Call([ValueArg(title)], [])) ==
      Success(c.(items := c.items + [Inst(ListItem(title, VNone, VNone, Plain(VNone), None, VNone, VNone, VNone))]))
    ensures AddListItem(c, Call([], [])) == Failure(TypeError)
  {
    var call: Call<CardArg<ListItem>> := Call([ValueArg(title)], []);
    assert Binds(ListItemParams, 1, call);
    var empty: Call<CardArg<ListItem>> := Call([], []);
    assert !HasKw(empty.kwargs, ListItemParams[0]);
  }

  const ListItemMissing := "해당 아이템이 존재하지 않습니다."

  /** `ListCard.remove_item(item)`: AssertionError for a non-ListItem, ValueError when
      the item is not in the card, otherwise the first equal item is removed. */
  function RemoveListItem(c: ListCard, item: Ref<ListItem>): (r: Result<ListCard, Error>)
    ensures r.Success? <==> item.Inst? && item in c.items
    ensures item.Plain? ==> r == Failure(AssertionError)
    ensures item.Inst? && item !in c.items ==> r == Failure(ValueError(ListItemMissing))
    ensures r.Success? ==> r.value == c.(items := RemoveFirst(c.items, item))
  {
    var _ :- Require(item.Inst?, AssertionError);
    var _ :- Require(item in c.items, ValueError(ListItemMissing));
    Success(c.(items := RemoveFirst(c.items, item)))
  }

  /** Adding a fresh list item and removing it again gives back the card. */
  lemma AddThenRemoveListItem(c: ListCard, x: ListItem)
    requires Inst(x) !in c.items
    ensures AddListItem(c, Call([ObjArg(x)], [])) == Success(c.(items := c.items + [Inst(x)]))
    ensures RemoveListItem(c.(items := c.items + [Inst(x)]), Inst(x)) == Success(c)
  {
    RemoveAppended(c.items, Inst(x));
  }

  // ------------------------------------------------------------ ItemCard

  datatype ItemCard = ItemCard(
    itemList: seq<Ref<Item>>, thumbnail: Ref<ItemThumbnail>, head: Value, profile: Ref<ItemProfile>,
    imageTitle: Ref<ImageTitle>, itemListAlignment: Value, itemListSummary: Ref<Item>,
    title: Value, description: Value, buttons: Buttons, buttonLayout: Value)

  /** `isinstance(x, ItemListSummary)`. */
  predicate IsSummary(x: Ref<Item>) {
    x.Inst? && x.obj.summary
  }

  /** Only types are checked: no count limits, and head and profile may both be set. */
  predicate ItemCardValid(c: ItemCard) {
    && ButtonsValid(c.buttons)
    && (forall i | 0 <= i < |c.itemList| :: c.itemList[i].Inst? || c.itemList[i].IsNone())
    && (c.thumbnail.Inst? || c.thumbnail.IsNone())
    && (c.profile.Inst? || c.profile.IsNone())
    && (c.imageTitle.Inst? || c.imageTitle.IsNone())
    && (IsSummary(c.itemListSummary) || c.itemListSummary.IsNone())
    && StrOrNone(c.head) && StrOrNone(c.title) && StrOrNone(c.description) && StrOrNone(c.buttonLayout)
  }

  /** `ItemCard.validate`. */
  function ValidateItemCard(c: ItemCard): (r: Outcome)
    ensures r.Success? <==> ItemCardValid(c)
    ensures r.Failure? ==> r.error == InvalidTypeError
  {
    var _ :- ValidateButtons(c.buttons);
    var _ :- ValidateRefs(c.itemList, false, InvalidTypeError);
    assert [c.thumbnail][0] == c.thumbnail && [c.profile][0] == c.profile && [c.imageTitle][0] == c.imageTitle;
    assert [c.itemListSummary][0] == c.itemListSummary;
    var _ :- ValidateRefs([c.thumbnail], false, InvalidTypeError);
    var _ :- ValidateRefs([c.profile], false, InvalidTypeError);
    var _ :- ValidateRefs([c.imageTitle], false, InvalidTypeError);
    var _ :- ValidateType((x: Ref<Item>) => x.IsNone(), IsSummary, [c.itemListSummary], false, InvalidTypeError);
    var texts := [c.head, c.title, c.description, c.buttonLayout];
    assert texts[0] == c.head && texts[1] == c.title && texts[2] == c.description && texts[3] == c.buttonLayout;
    ValidateStr(texts, false)
  }

  /** Whether the nested objects of a valid item card all render. */
  predicate ItemCardPartsRender(c: ItemCard) {
    && (c.thumbnail.Inst? ==> RenderItemThumbnail(c.thumbnail.obj).Success?)
    && (c.profile.Inst? ==> RenderItemProfile(c.profile.obj).Success?)
    && (c.imageTitle.Inst? ==> RenderImageTitle(c.imageTitle.obj).Success?)
    && (forall i | 0 <= i < |c.itemList| :: Renders(c.itemList[i], RenderItem))
    && (c.itemListSummary.Inst? ==> RenderItem(c.itemListSummary.obj).Success?)
    && ButtonsRender(c.buttons)
  }

  /** The "head" value: `{"title": head}` for a truthy head, so an empty head is dropped
      like a missing one. */
  function Head(head: Value): (v: Value)
    ensures Truthy(head) ==> v == VDict([("title", head)])
    ensures !Truthy(head) ==> v.VNone?
  {
    if Truthy(head) then VDict([("title", head)]) else VNone
  }

  /** `ItemCard.render` (see `ItemCardContents`). */
  function RenderItemCard(c: ItemCard): (r: Result<Dict, Error>)
    ensures r.Success? <==> ItemCardValid(c) && ItemCardPartsRender(c)
  {
    var _ :- ValidateItemCard(c);
    var thumbnail :- RenderIfSet(c.thumbnail, RenderItemThumbnail);
    var profile :- RenderIfSet(c.profile, RenderItemProfile);
    var imageTitle :- RenderIfSet(c.imageTitle, RenderImageTitle);
    var items :- RenderEach(c.itemList, RenderItem);
    var summary :- RenderIfSet(c.itemListSummary, RenderItem);
    var buttons :- RenderButtons(c.buttons);
    Success(RemoveNone(ItemCardResponse(c, thumbnail, profile, imageTitle, VList(items), summary, buttons)))
  }

  /** The dict `ItemCard.render` strips. */
  function ItemCardResponse(c: ItemCard, thumbnail: Value, profile: Value, imageTitle: Value,
                            items: Value, summary: Value, buttons: Value): Dict {
    [("thumbnail", thumbnail), ("head", Head(c.head)), ("profile", profile), ("imageTitle", imageTitle),
     ("itemList", items), ("itemListAlignment", c.itemListAlignment), ("itemListSummary", summary),
     ("title", c.title), ("description", c.description), ("buttonLayout", c.buttonLayout),
     ("buttons", buttons)]
  }

  /** A rendered item card always holds "itemList" with one rendered item per entry
      (possibly none), holds "head" exactly when the head is truthy, and holds each
      nested object exactly when it is attached. */
  lemma ItemCardContents(c: ItemCard)
    requires RenderItemCard(c).Success?
    ensures var out := RenderItemCard(c).value;
      && ("itemList", VList(RenderEach(c.itemList, RenderItem).value)) in out
      && |RenderEach(c.itemList, RenderItem).value| == |c.itemList|
      && (Truthy(c.head) ==> ("head", VDict([("title", c.head)])) in out)
      && (HasKey(out, "head") <==> Truthy(c.head))
      && (HasKey(out, "thumbnail") <==> c.thumbnail.Inst?)
      && (HasKey(out, "profile") <==> c.profile.Inst?)
      && (HasKey(out, "imageTitle") <==> c.imageTitle.Inst?)
      && (HasKey(out, "itemListSummary") <==> c.itemListSummary.Inst?)
  {
    var thumbnail := RenderIfSet(c.thumbnail, RenderItemThumbnail).value;
    var profile := RenderIfSet(c.profile, RenderItemProfile).value;
    var imageTitle := RenderIfSet(c.imageTitle, RenderImageTitle).value;
    var summary := RenderIfSet(c.itemListSummary, RenderItem).value;
    ItemCardEntries(c, thumbnail, profile, imageTitle, VList(RenderEach(c.itemList, RenderItem).value), summary,
                    RenderButtons(c.buttons).value, RenderItemCard(c).value);
  }

  lemma ItemCardEntries(c: ItemCard, thumbnail: Value, profile: Value, imageTitle: Value, items: Value,
                        summary: Value, buttons: Value, out: Dict)
    requires out == RemoveNone(ItemCardResponse(c, thumbnail, profile, imageTitle, items, summary, buttons))
    requires items.VList?
    requires thumbnail.VNone? <==> !c.thumbnail.Inst?
    requires profile.VNone? <==> !c.profile.Inst?
    requires imageTitle.VNone? <==> !c.imageTitle.Inst?
    requires summary.VNone? <==> !c.itemListSummary.Inst?
    ensures ("itemList", items) in out
    ensures Truthy(c.head) ==> ("head", VDict([("title", c.head)])) in out
    ensures HasKey(out, "head") <==> Truthy(c.head)
    ensures HasKey(out, "thumbnail") <==> c.thumbnail.Inst?
    ensures HasKey(out, "profile") <==> c.profile.Inst?
    ensures HasKey(out, "imageTitle") <==> c.imageTitle.Inst?
    ensures HasKey(out, "itemListSummary") <==> c.itemListSummary.Inst?
  {
    var base := ItemCardResponse(c, thumbnail, profile, imageTitle, items, summary, buttons);
    StrippedEntryAt(base, 1);
    StrippedEntryAt(base, 4);
    ItemCardKeys(base, c, thumbnail, profile, imageTitle, items, summary, buttons);
    StrippedKeyAt(base, 0);
    StrippedKeyAt(base, 1);
    StrippedKeyAt(base, 2);
    StrippedKeyAt(base, 3);
    StrippedKeyAt(base, 6);
  }

  /** The keys of an item card's response that can be missing are each carried by one
      entry only. */
  lemma ItemCardKeys(base: Dict, c: ItemCard, thumbnail: Value, profile: Value, imageTitle: Value,
                     items: Value, summary: Value, buttons: Value)
    requires base == ItemCardResponse(c, thumbnail, profile, imageTitle, items, summary, buttons)
    ensures forall j | 0 <= j < |base| && j != 0 :: base[j].0 != base[0].0
    ensures forall j | 0 <= j < |base| && j != 1 :: base[j].0 != base[1].0
    ensures forall j | 0 <= j < |base| && j != 2 :: base[j].0 != base[2].0
    ensures forall j | 0 <= j < |base| && j != 3 :: base[j].0 != base[3].0
    ensures forall j | 0 <= j < |base| && j != 6 :: base[j].0 != base[6].0
  {
    assert forall j | 0 <= j < |base| && j != 0 :: |base[j].0| != 9;
    assert forall j | 0 <= j < |base| && j != 1 :: |base[j].0| != 4;
    assert "profile"[0] != "buttons"[0];
    assert forall j | 0 <= j < |base| && j != 2 && j != 10 :: |base[j].0| != 7;
    assert forall j | 0 <= j < |base| && j != 3 :: |base[j].0| != 10;
    assert forall j | 0 <= j < |base| && j != 6 :: |base[j].0| != 15;
  }
}
