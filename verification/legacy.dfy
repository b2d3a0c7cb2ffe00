/** The earlier output objects of the library (kakao/common.py), which the response
    package superseded but which still ship: the `Action` table of required fields, the
    `Interaction` base of the legacy QuickReply and Button, and the `ListItem` /
    `ListItems` pair. The legacy Link, Thumbnail and Profile behave exactly like the
    ones in `Common` and are modelled there. */
module LegacyCommon {
  import opened Wrappers
  import opened Errors
  import opened PyValue
  import opened PyStrings
  import opened KakaoUtils
  import opened KakaoBase
  import opened Validation
  import opened Lists
  import opened Each
  import Common
  import Interaction

  type ActionKind = Interaction.ActionKind

  // ------------------------------------------------------------- Action

  /** `Action.required_fields`: the camelCase wire fields an action needs; None for
      share and operator. Unlike the response package, a message also needs a block
      id. */
  function RequiredFields(a: ActionKind): Option<seq<string>> {
    match a
    case WebLink => Some(["webLinkUrl"])
    case Message => Some(["messageText", "blockId"])
    case Phone => Some(["phoneNumber"])
    case Block => Some(["blockId"])
    case Share => None
    case Operator => None
  }

  /** The required fields as a list, empty when there are none. */
  function Camels(a: ActionKind): seq<string> {
    RequiredFields(a).GetOr([])
  }

  /** `[camel_to_snake(field) for field in fields]`. */
  function SnakeAll(fields: seq<string>): (r: seq<string>)
    ensures |r| == |fields|
    ensures forall i | 0 <= i < |r| :: r[i] == CamelToSnake(fields[i])
  {
    if |fields| == 0 then [] else [CamelToSnake(fields[0])] + SnakeAll(fields[1..])
  }

  /** `Action.required_fields_snake`: the required fields in snake_case, or None. The
      names are spelled out here; `RequiredFieldsSnakeIsCamelToSnake` shows each is
      `camel_to_snake` of its camelCase name, which is how the source computes them. */
  function RequiredFieldsSnake(a: ActionKind): Option<seq<string>> {
    match a
    case WebLink => Some(["web_link_url"])
    case Message => Some(["message_text", "block_id"])
    case Phone => Some(["phone_number"])
    case Block => Some(["block_id"])
    case Share => None
    case Operator => None
  }

  function Snakes(a: ActionKind): seq<string> {
    RequiredFieldsSnake(a).GetOr([])
  }

  lemma SnakeOne(c: string, s: string)
    requires CamelToSnake(c) == s
    ensures SnakeAll([c]) == [s]
  {
    assert [c][1..] == [];
  }

  lemma SnakeTwo(c: string, d: string, s: string, t: string)
    requires CamelToSnake(c) == s && CamelToSnake(d) == t
    ensures SnakeAll([c, d]) == [s, t]
  {
    assert [c, d][1..] == [d];
    SnakeOne(d, t);
  }

  /** The snake_case table is `camel_to_snake` applied to each required field, and
      None exactly where the camelCase table is None. */
  lemma RequiredFieldsSnakeIsCamelToSnake(a: ActionKind)
    ensures RequiredFieldsSnake(a).Some? <==> RequiredFields(a).Some?
    ensures RequiredFieldsSnake(a).Some? ==> RequiredFieldsSnake(a).value == SnakeAll(Camels(a))
  {
    match a
    case WebLink =>
      WebLinkUrlName();
      SnakeOne("webLinkUrl", "web_link_url");
    case Message =>
      MessageTextName();
      BlockIdName();
      SnakeTwo("messageText", "blockId", "message_text", "block_id");
    case Phone =>
      PhoneNumberName();
      SnakeOne("phoneNumber", "phone_number");
    case Block =>
      BlockIdName();
      SnakeOne("blockId", "block_id");
    case _ =>
  }

  /** Each snake_case name is an attribute the legacy Button sets. */
  lemma SnakesAreAttributes(a: ActionKind)
    ensures forall f | f in Snakes(a) :: f in Interaction.AttributeNames
  {
  }

  /** The legacy table asks for everything the response package's table requires, and
      the two agree on which actions need nothing. */
  lemma RequiredFieldsCoverResponsePackage(a: ActionKind)
    ensures forall f | f in Interaction.Required(a) :: f in Camels(a)
    ensures RequiredFields(a).None? <==> Interaction.Required(a) == []
    ensures a == Interaction.Message ==> "blockId" in Camels(a) && "blockId" !in Interaction.Required(a)
  {
  }

  // -------------------------------------------------------- Interaction

  /** A legacy QuickReply or Button once constructed: its label, the member that
      `process_action` produced, `extra`, and its own attributes by snake_case name
      (the two a QuickReply sets, or the four a Button sets), which `getattr` reads. */
  datatype Clickable = Clickable(labelText: Value, action: ActionKind, extra: Value, attrs: Dict)

  /** `QuickReply.__init__`: the action is processed (InvalidActionError otherwise), and
      only `message_text` and `block_id` become attributes. */
  function NewQuickReply(labelText: Value, action: Interaction.ActionArg, messageText: Value, blockId: Value,
                         extra: Value): (r: Result<Clickable, Error>)
    ensures r.Success? <==> Interaction.ProcessAction(action).Success?
    ensures r.Failure? ==> r.error == InvalidActionError
    ensures r.Success? ==> r.value.action == Interaction.ProcessAction(action).value
    ensures r.Success? ==> Keys(r.value.attrs) == ["message_text", "block_id"]
    ensures r.Success? ==> GetOr(r.value.attrs, "message_text", VNone) == messageText
                           && GetOr(r.value.attrs, "block_id", VNone) == blockId
  {
    var a :- Interaction.ProcessAction(action);
    Success(Clickable(labelText, a, extra, [("message_text", messageText), ("block_id", blockId)]))
  }

  /** `Button.__init__`: the action is processed and all four fields become attributes. */
  function NewButton(labelText: Value, action: Interaction.ActionArg, webLinkUrl: Value, messageText: Value,
                     phoneNumber: Value, blockId: Value, extra: Value): (r: Result<Clickable, Error>)
    ensures r.Success? <==> Interaction.ProcessAction(action).Success?
    ensures r.Failure? ==> r.error == InvalidActionError
    ensures r.Success? ==> r.value.action == Interaction.ProcessAction(action).value
    ensures r.Success? ==> Keys(r.value.attrs) == Interaction.AttributeNames
  {
    var a :- Interaction.ProcessAction(action);
    Success(Clickable(labelText, a, extra, [("web_link_url", webLinkUrl), ("message_text", messageText),
                                        ("phone_number", phoneNumber), ("block_id", blockId)]))
  }

  /** The QuickReply's default action, "Message", is the MESSAGE member. */
  lemma DefaultQuickReplyAction()
    ensures Interaction.ProcessAction(Interaction.ByValue(VStr("Message"))) == Success(Interaction.Message)
  {
    Interaction.NameUpperCase("Message", "MESSAGE");
    Interaction.ResolvesTo("Message", Interaction.Message);
  }

  predicate StrOrNone(v: Value) {
    v.VStr? || v.VNone?
  }

  /** One required attribute as the loop in `validate` wants it: present, and a str or
      None. */
  predicate AttrHolds(attrs: Dict, snake: string) {
    HasKey(attrs, snake) && StrOrNone(Get(attrs, snake).value)
  }

  /** Every attribute of the object is a str or None. */
  predicate OwnTyped(attrs: Dict) {
    forall i | 0 <= i < |attrs| :: StrOrNone(attrs[i].1)
  }

  /** Every named attribute exists, so `getattr` finds it. */
  predicate HasAll(attrs: Dict, snakes: seq<string>) {
    forall f | f in snakes :: HasKey(attrs, f)
  }

  /** `for field in required_fields_snake: validate_str(getattr(self, field))`: a
      missing attribute raises AttributeError, a non-str one InvalidTypeError. */
  function CheckAttrs(attrs: Dict, snakes: seq<string>): (r: Outcome)
    ensures r.Success? <==> forall f | f in snakes :: AttrHolds(attrs, f)
    ensures r.Failure? ==> r.error == AttributeError || r.error == InvalidTypeError
    ensures OwnTyped(attrs) ==> (r.Success? <==> HasAll(attrs, snakes))
    ensures OwnTyped(attrs) && r.Failure? ==> r.error == AttributeError
  {
    if |snakes| == 0 then Pass
    else
      assert forall f | f in snakes :: f == snakes[0] || f in snakes[1..];
      assert snakes[0] in snakes;
      match Get(attrs, snakes[0])
      case None => Failure(AttributeError)
      case Some(v) =>
        if StrOrNone(v) then CheckAttrs(attrs, snakes[1..])
        else
          assert !OwnTyped(attrs) by {
            var i :| 0 <= i < |attrs| && attrs[i] == (snakes[0], v);
          }
          Failure(InvalidTypeError)
  }

  /** `validate_type(dict, self.extra)`. */
  function CheckExtra(extra: Value): (r: Outcome)
    ensures r.Success? <==> extra.VNone? || extra.VDict?
    ensures r.Failure? ==> r.error == InvalidTypeError
  {
    SingleType(DictType);
    assert [extra][0] == extra;
    ValidateValues([DictType], [extra], false, InvalidTypeError)
  }

  /** What the legacy `validate` accepts: the class's own attributes, the label and
      `extra` have the right types, and every required attribute exists. None passes
      wherever `validate_str` is used, so a required field may be left unset; and the
      class's `available_actions` is never looked at. */
  predicate Valid(it: Clickable) {
    && OwnTyped(it.attrs)
    && StrOrNone(it.labelText)
    && HasAll(it.attrs, Snakes(it.action))
    && (it.extra.VNone? || it.extra.VDict?)
  }

  /** The values of the class's own attributes, which its `validate` checks first. */
  function OwnValues(attrs: Dict): (vs: seq<Value>)
    ensures |vs| == |attrs| && forall i | 0 <= i < |attrs| :: vs[i] == attrs[i].1
  {
    seq(|attrs|, i requires 0 <= i < |attrs| => attrs[i].1)
  }

  /** `QuickReply.validate` / `Button.validate`: `validate_str` over the own
      attributes, then `Interaction.validate` (label, action, required attributes by
      `getattr`, `extra`). Only a missing attribute raises AttributeError. */
  function Validate(it: Clickable): (r: Outcome)
    ensures r.Success? <==> Valid(it)
    ensures r.Failure? ==> r.error == InvalidTypeError || r.error == AttributeError
    ensures r == Failure(AttributeError) <==>
      OwnTyped(it.attrs) && StrOrNone(it.labelText) && !HasAll(it.attrs, Snakes(it.action))
  {
    var _ :- ValidateStr(OwnValues(it.attrs), false);
    assert [it.labelText][0] == it.labelText;
    var _ :- ValidateStr([it.labelText], false);
    var _ :- CheckAttrs(it.attrs, Snakes(it.action));
    CheckExtra(it.extra)
  }

  /** The dict `render` builds before `remove_none_item`: label, the action's value,
      each required field under its camelCase name, and `extra` when set. */
  function ResponseOf(labelText: Value, wire: string, attrs: Dict, camels: seq<string>, extra: Value): Dict {
    [("label", labelText), ("action", VStr(wire))]
    + Interaction.FieldEntries(attrs, camels, false)
    + (if extra.VNone? then [] else [("extra", extra)])
  }

  function Response(it: Clickable): Dict {
    ResponseOf(it.labelText, it.action.WireValue(), it.attrs, Camels(it.action), it.extra)
  }

  /** `Interaction.render`: validate, then the response without its None values (see
      `RenderContents`). */
  function Render(it: Clickable): (r: Result<Dict, Error>)
    ensures r.Success? <==> Valid(it)
    ensures r.Failure? ==> Validate(it) == Failure(r.error)
  {
    var _ :- Validate(it);
    Success(RemoveNone(Response(it)))
  }

  /** The keys a legacy rendering may hold. */
  function RenderKeys(camels: seq<string>): seq<string> {
    ["label", "action", "extra"] + camels
  }

  /** What the stripped response holds, for any list of camelCase fields. */
  lemma ResponseContents(labelText: Value, wire: string, attrs: Dict, camels: seq<string>, extra: Value, out: Dict)
    requires "extra" !in camels
    requires out == RemoveNone(ResponseOf(labelText, wire, attrs, camels, extra))
    ensures ("label", labelText) in out <==> !labelText.VNone?
    ensures ("action", VStr(wire)) in out
    ensures forall f | f in camels ::
      (f, Interaction.AttrOf(attrs, f)) in out <==> !Interaction.AttrOf(attrs, f).VNone?
    ensures ("extra", extra) in out <==> !extra.VNone?
    ensures forall e | e in out :: e.0 in RenderKeys(camels) && !e.1.VNone?
  {
    var head: Dict := [("label", labelText), ("action", VStr(wire))];
    var req := Interaction.FieldEntries(attrs, camels, false);
    var ext: Dict := if extra.VNone? then [] else [("extra", extra)];
    var response := head + req + ext;
    assert ("label", labelText) in response && ("action", VStr(wire)) in response by {
      assert head[0] == ("label", labelText) && head[1] == ("action", VStr(wire));
    }
    forall f | f in camels ensures (f, Interaction.AttrOf(attrs, f)) in response {
      assert (f, Interaction.AttrOf(attrs, f)) in req;
    }
    assert ("extra", extra) in response <==> !extra.VNone? by {
      if !extra.VNone? { assert ("extra", extra) in ext; }
      else { assert ("extra", extra) !in req; }
    }
    forall e | e in response ensures e.0 in RenderKeys(camels) {
      assert e in head || e in req || e in ext;
    }
  }

  /** Every legacy required field is one of the four wire fields. */
  lemma CamelsAreFieldNames(a: ActionKind)
    ensures forall f | f in Camels(a) :: f in Interaction.FieldNames
    ensures "extra" !in Camels(a)
  {
  }

  /** A rendered legacy interaction holds the label when set, the action's value, each
      required field whose attribute is set, and `extra` when set; nothing else, and no
      None. */
  lemma RenderContents(it: Clickable)
    requires Valid(it)
    ensures var out := Render(it).value;
      && (("label", it.labelText) in out <==> !it.labelText.VNone?)
      && ("action", VStr(it.action.WireValue())) in out
      && (forall f | f in Camels(it.action) ::
            (f, Interaction.AttrOf(it.attrs, f)) in out <==> !Interaction.AttrOf(it.attrs, f).VNone?)
      && (("extra", it.extra) in out <==> !it.extra.VNone?)
      && (forall e | e in out :: e.0 in RenderKeys(Camels(it.action)) && !e.1.VNone?)
  {
    CamelsAreFieldNames(it.action);
    ResponseContents(it.labelText, it.action.WireValue(), it.attrs, Camels(it.action), it.extra, Render(it).value);
  }

  /** A legacy QuickReply with a str label and nothing else set. */
  function BareQuickReply(labelText: string, a: ActionKind): Clickable {
    Clickable(VStr(labelText), a, VNone, [("message_text", VNone), ("block_id", VNone)])
  }

  /** With well-typed attributes, label and `extra`, validation comes down to whether
      every required attribute exists. */
  lemma TypedValidates(it: Clickable)
    requires OwnTyped(it.attrs) && StrOrNone(it.labelText) && (it.extra.VNone? || it.extra.VDict?)
    ensures Validate(it).Success? <==> HasAll(it.attrs, Snakes(it.action))
    ensures !HasAll(it.attrs, Snakes(it.action)) ==> Validate(it) == Failure(AttributeError)
  {
  }

  /** A name starting with neither 'm' nor 'b' is not an attribute of a QuickReply. */
  lemma NotQuickReplyAttr(attrs: Dict, f: string)
    requires Keys(attrs) == ["message_text", "block_id"]
    requires |f| > 0 && f[0] != 'm' && f[0] != 'b'
    ensures !HasAll(attrs, [f])
  {
    assert attrs[0].0 == "message_text" && attrs[1].0 == "block_id";
    assert f in [f];
  }

  /** Names among the two QuickReply attributes are all found. */
  lemma QuickReplyAttrs(attrs: Dict, snakes: seq<string>)
    requires Keys(attrs) == ["message_text", "block_id"]
    requires forall f | f in snakes :: f == "message_text" || f == "block_id"
    ensures HasAll(attrs, snakes)
  {
    assert attrs[0].0 == "message_text" && attrs[1].0 == "block_id";
  }

  /** A QuickReply lacks the attribute webLink and phone require. */
  lemma QuickReplyLacks(attrs: Dict, a: ActionKind)
    requires Keys(attrs) == ["message_text", "block_id"]
    requires a == Interaction.WebLink || a == Interaction.Phone
    ensures !HasAll(attrs, Snakes(a))
  {
    if a == Interaction.WebLink {
      NotQuickReplyAttr(attrs, "web_link_url");
    } else {
      NotQuickReplyAttr(attrs, "phone_number");
    }
  }

  /** A QuickReply has the attributes every other action requires. */
  lemma QuickReplyCovers(attrs: Dict, a: ActionKind)
    requires Keys(attrs) == ["message_text", "block_id"]
    requires a != Interaction.WebLink && a != Interaction.Phone
    ensures HasAll(attrs, Snakes(a))
  {
    QuickReplyAttrs(attrs, Snakes(a));
  }

  /** A legacy QuickReply never consults its `available_actions` (MESSAGE and BLOCK):
      share and operator validate too. It fails exactly for webLink and phone, whose
      required attribute a QuickReply does not have. */
  lemma QuickReplyIgnoresAvailableActions(labelText: string, a: ActionKind)
    ensures Validate(BareQuickReply(labelText, a)).Success? <==> a != Interaction.WebLink && a != Interaction.Phone
    ensures a == Interaction.WebLink || a == Interaction.Phone ==>
      Validate(BareQuickReply(labelText, a)) == Failure(AttributeError)
  {
    var q := BareQuickReply(labelText, a);
    assert OwnTyped(q.attrs);
    TypedValidates(q);
    if a == Interaction.WebLink || a == Interaction.Phone {
      QuickReplyLacks(q.attrs, a);
    } else {
      QuickReplyCovers(q.attrs, a);
    }
  }

  /** A dict of None values strips to nothing. */
  lemma {:induction false} AllNoneStripped(tail: Dict)
    requires forall e | e in tail :: e.1.VNone?
    ensures RemoveNone(tail) == []
    decreases |tail|
  {
    if |tail| > 0 {
      assert tail[0] in tail;
      assert forall e | e in tail[1..] :: e in tail;
      AllNoneStripped(tail[1..]);
    }
  }

  /** Stripping a dict whose head has no None and whose tail is all None leaves the
      head. */
  lemma StripNoneTail(head: Dict, tail: Dict)
    requires forall i | 0 <= i < |head| :: !head[i].1.VNone?
    requires forall e | e in tail :: e.1.VNone?
    ensures RemoveNone(head + tail) == head
  {
    RemoveNoneConcat(head, tail);
    RemoveNoneNoOp(head);
    AllNoneStripped(tail);
  }

  /** Every attribute an object without set attributes reads is None. */
  lemma UnsetAttrs(attrs: Dict, fields: seq<string>)
    requires forall i | 0 <= i < |attrs| :: attrs[i].1.VNone?
    ensures forall e | e in Interaction.FieldEntries(attrs, fields, false) :: e.1.VNone?
  {
    forall e | e in Interaction.FieldEntries(attrs, fields, false) ensures e.1.VNone? {
      var g := Get(attrs, CamelToSnake(e.0));
      if g.Some? {
        var i :| 0 <= i < |attrs| && attrs[i] == (CamelToSnake(e.0), g.value);
      }
    }
  }

  /** The stripped response of an object whose attributes are all unset and which has
      no `extra` holds just the label and the action. */
  lemma UnsetResponse(labelText: string, wire: string, attrs: Dict, camels: seq<string>, out: Dict)
    requires forall i | 0 <= i < |attrs| :: attrs[i].1.VNone?
    requires out == RemoveNone(ResponseOf(VStr(labelText), wire, attrs, camels, VNone))
    ensures out == [("label", VStr(labelText)), ("action", VStr(wire))]
  {
    var head: Dict := [("label", VStr(labelText)), ("action", VStr(wire))];
    var req := Interaction.FieldEntries(attrs, camels, false);
    assert ResponseOf(VStr(labelText), wire, attrs, camels, VNone) == head + req;
    UnsetAttrs(attrs, camels);
    StripNoneTail(head, req);
  }

  /** A message or block QuickReply with neither message text nor block id validates,
      although its required fields are missing, and renders with just its label and
      action. */
  lemma MissingRequiredFieldsPass(labelText: string, a: ActionKind)
    requires a == Interaction.Message || a == Interaction.Block
    ensures Validate(BareQuickReply(labelText, a)).Success?
    ensures Render(BareQuickReply(labelText, a)) ==
      Success([("label", VStr(labelText)), ("action", VStr(a.WireValue()))])
  {
    QuickReplyIgnoresAvailableActions(labelText, a);
    BareResponse(labelText, a);
  }

  /** A QuickReply without message text or block id responds with its label and
      action alone. */
  lemma BareResponse(labelText: string, a: ActionKind)
    ensures RemoveNone(Response(BareQuickReply(labelText, a))) == [("label", VStr(labelText)), ("action", VStr(a.WireValue()))]
  {
    var q := BareQuickReply(labelText, a);
    assert forall i | 0 <= i < |q.attrs| :: q.attrs[i].1.VNone?;
    UnsetResponse(labelText, a.WireValue(), q.attrs, Camels(q.action), RemoveNone(Response(q)));
  }

  /** The four attributes of a Button cover the required ones of every action. */
  lemma ButtonHasAll(attrs: Dict, a: ActionKind)
    requires Keys(attrs) == Interaction.AttributeNames
    ensures HasAll(attrs, Snakes(a))
  {
    SnakesAreAttributes(a);
    assert attrs[0].0 == "web_link_url" && attrs[1].0 == "message_text";
    assert attrs[2].0 == "phone_number" && attrs[3].0 == "block_id";
    assert forall f | f in Interaction.AttributeNames :: HasKey(attrs, f);
  }

  /** A legacy Button has every attribute, so it validates with any of the six actions
      once its label and fields are str or None and `extra` is a dict or None. */
  lemma ButtonAnyAction(labelText: Value, a: ActionKind, web: Value, message: Value, phone: Value, block: Value,
                        extra: Value)
    requires StrOrNone(labelText) && StrOrNone(web) && StrOrNone(message) && StrOrNone(phone) && StrOrNone(block)
    requires extra.VNone? || extra.VDict?
    ensures NewButton(labelText, Interaction.ByMember(a), web, message, phone, block, extra).Success?
    ensures Validate(NewButton(labelText, Interaction.ByMember(a), web, message, phone, block, extra).value).Success?
  {
    var b := NewButton(labelText, Interaction.ByMember(a), web, message, phone, block, extra).value;
    assert OwnTyped(b.attrs);
    ButtonHasAll(b.attrs, a);
    TypedValidates(b);
  }

  // ------------------------------------------------------- ListItem(s)

  /** A legacy list item: every constructor argument is stored as given; `action` is
      not processed and `extra` is never rendered. */
  datatype ListItem = ListItem(title: Value, description: Value, imageUrl: Value, link: Ref<Common.Link>,
                               action: Value, blockId: Value, messageText: Value, extra: Value)

  /** `ListItem.validate`: a str title, str-or-None text fields, a Link or None. */
  function ValidateListItem(item: ListItem): (r: Outcome)
    ensures r.Success? <==>
      && item.title.VStr?
      && StrOrNone(item.description) && StrOrNone(item.imageUrl)
      && StrOrNone(item.blockId) && StrOrNone(item.messageText)
      && (item.link.Inst? || item.link.IsNone())
    ensures r.Failure? ==> r.error == InvalidTypeError
  {
    assert [item.title][0] == item.title && [item.link][0] == item.link;
    var _ :- ValidateStr([item.title], true);
    var texts := [item.description, item.imageUrl, item.blockId, item.messageText];
    assert texts[0] == item.description && texts[1] == item.imageUrl && texts[2] == item.blockId
           && texts[3] == item.messageText;
    var _ :- ValidateStr(texts, false);
    ValidateRefs([item.link], false, InvalidTypeError)
  }

  /** The keys a rendered legacy list item may hold. */
  const ListItemKeys: seq<string> :=
    ["title", "description", "imageUrl", "link", "action", "blockId", "messageText"]

  /** `ListItem.render`: validate, render the link, and drop the None values. */
  function RenderListItem(item: ListItem): (r: Result<Dict, Error>)
    ensures r.Success? <==> ValidateListItem(item).Success? && (item.link.Inst? ==> Common.RenderLink(item.link.obj).Success?)
    ensures r.Success? ==> ("title", item.title) in r.value
    ensures r.Success? ==> forall e | e in r.value :: e.0 in ListItemKeys && !e.1.VNone?
  {
    var _ :- ValidateListItem(item);
    var link :- Common.RenderLinkRef(item.link);
    var response := [("title", item.title), ("description", item.description), ("imageUrl", item.imageUrl),
                     ("link", link), ("action", item.action), ("blockId", item.blockId),
                     ("messageText", item.messageText)];
    assert ("title", item.title) in response;
    assert forall e | e in response :: e.0 in ListItemKeys;
    Success(RemoveNone(response))
  }

  /** `ListItems`: the items (each expected to be a ListItem) and the cap, 5 by
      default. */
  datatype ListItems = ListItems(items: seq<Ref<ListItem>>, maxItems: int)

  const DefaultMaxItems: int := 5

  /** `ListItems.__init__`: no list means a new empty one. */
  function NewListItems(items: Option<seq<Ref<ListItem>>>, maxItems: int): (l: ListItems)
    ensures l.maxItems == maxItems
    ensures items.None? ==> l.items == []
    ensures items.Some? ==> l.items == items.value
  {
    ListItems(items.GetOr([]), maxItems)
  }

  /** The message of the cap's ValueError, which names the cap. */
  function TooManyItems(maxItems: int): string {
    "버튼이 최대 " + IntToString(maxItems) + "개까지 가능하도록 제한되어 있습니다."
  }

  /** `ListItems.validate`: no more items than the cap (ValueError), and each item a
      ListItem or None. */
  function ValidateListItems(l: ListItems): (r: Outcome)
    ensures r.Success? <==> |l.items| <= l.maxItems && forall i | 0 <= i < |l.items| :: l.items[i].Inst? || l.items[i].IsNone()
    ensures |l.items| > l.maxItems ==> r == Failure(ValueError(TooManyItems(l.maxItems)))
    ensures |l.items| <= l.maxItems && r.Failure? ==> r.error == InvalidTypeError
  {
    var _ :- Require(!(|l.items| > l.maxItems), ValueError(TooManyItems(l.maxItems)));
    ValidateRefs(l.items, false, InvalidTypeError)
  }

  /** `ListItems.add_item` as written: the guard is `len > max`, so a list already at
      its cap takes one more item. */
  function AddItemAsWritten(l: ListItems, x: Ref<ListItem>): (r: Result<ListItems, Error>)
    ensures r.Success? <==> |l.items| <= l.maxItems && (x.Inst? || x.IsNone())
    ensures r.Success? ==> r.value == l.(items := l.items + [x])
  {
    var _ :- Require(!(|l.items| > l.maxItems), ValueError(TooManyItems(l.maxItems)));
    var _ :- ValidateRefs([x], false, InvalidTypeError);
    assert [x][0] == x;
    Success(l.(items := l.items + [x]))
  }

  /** At the cap, `add_item` as written accepts the item, and the list it leaves no
      longer validates. */
  lemma AddItemOverfills(l: ListItems, x: ListItem)
    requires |l.items| == l.maxItems
    ensures AddItemAsWritten(l, Inst(x)).Success?
    ensures ValidateListItems(AddItemAsWritten(l, Inst(x)).value) == Failure(ValueError(TooManyItems(l.maxItems)))
  {
  }

  /** `add_item` with the guard it evidently meant, `len >= max`: an item is taken only
      while there is room. */
  function AddItem(l: ListItems, x: Ref<ListItem>): (r: Result<ListItems, Error>)
    ensures r.Success? <==> |l.items| < l.maxItems && (x.Inst? || x.IsNone())
    ensures |l.items| >= l.maxItems ==> r == Failure(ValueError(TooManyItems(l.maxItems)))
    ensures r.Success? ==> r.value == l.(items := l.items + [x])
  {
    var _ :- Require(!(|l.items| >= l.maxItems), ValueError(TooManyItems(l.maxItems)));
    var _ :- ValidateRefs([x], false, InvalidTypeError);
    assert [x][0] == x;
    Success(l.(items := l.items + [x]))
  }

  /** The corrected `add_item` keeps a valid list valid. */
  lemma {:induction false} AddItemKeepsValid(l: ListItems, x: Ref<ListItem>)
    requires ValidateListItems(l).Success? && AddItem(l, x).Success?
    ensures ValidateListItems(AddItem(l, x).value).Success?
  {
    var items := l.items + [x];
    assert forall i | 0 <= i < |items| :: items[i] == if i < |l.items| then l.items[i] else x;
  }

  const NoSuchItem: string := "해당 ListItem이 존재하지 않습니다."

  /** `ListItems.remove_item`: ValueError when no item is equal, otherwise the first
      equal item is taken out. */
  function RemoveItem(l: ListItems, x: Ref<ListItem>): (r: Result<ListItems, Error>)
    ensures r.Success? <==> x in l.items
    ensures r.Failure? ==> r.error == ValueError(NoSuchItem)
    ensures r.Success? ==> |r.value.items| == |l.items| - 1 && r.value.maxItems == l.maxItems
    ensures r.Success? ==> multiset(r.value.items) == multiset(l.items) - multiset{x}
  {
    if x in l.items then
      RemoveFirstMultiset(l.items, x);
      Success(l.(items := RemoveFirst(l.items, x)))
    else Failure(ValueError(NoSuchItem))
  }

  /** Removing an item just added, that was not there before, restores the list. */
  lemma RemoveUndoesAdd(l: ListItems, x: Ref<ListItem>)
    requires AddItem(l, x).Success? && x !in l.items
    ensures RemoveItem(AddItem(l, x).value, x) == Success(l)
  {
    RemoveAppended(l.items, x);
  }

  /** `ListItems.render`: validate, then each item's rendering in order. A None item
      passes `validate` but has no `render`, so it raises AttributeError here. */
  function RenderListItems(l: ListItems): (r: Result<seq<Value>, Error>)
    ensures r.Success? <==> ValidateListItems(l).Success? && forall i | 0 <= i < |l.items| :: Renders(l.items[i], RenderListItem)
    ensures r.Success? ==> |r.value| == |l.items|
    ensures r.Success? ==> forall i | 0 <= i < |l.items| :: r.value[i] == VDict(RenderListItem(l.items[i].obj).value)
  {
    var _ :- ValidateListItems(l);
    RenderEach(l.items, RenderListItem)
  }

  /** `ListItems.is_empty`. */
  function IsEmpty(l: ListItems): (b: bool)
    ensures b <==> forall x :: x !in l.items
  {
    if |l.items| == 0 then true
    else
      assert l.items[0] in l.items;
      false
  }

  /** A None item is accepted by `add_item` and `validate` but makes `render` raise. */
  lemma NoneItemBreaksRender(l: ListItems)
    requires |l.items| < l.maxItems && ValidateListItems(l).Success?
    ensures AddItem(l, Plain(VNone)).Success?
    ensures ValidateListItems(AddItem(l, Plain(VNone)).value).Success?
    ensures RenderListItems(AddItem(l, Plain(VNone)).value).Failure?
  {
    AddItemKeepsValid(l, Plain(VNone));
    var items := AddItem(l, Plain(VNone)).value.items;
    assert !Renders(items[|items| - 1], RenderListItem);
  }
}
