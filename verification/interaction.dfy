/** `ActionEnum` and the `Interaction` mixin (kakao/response/interactiron.py): what a
    clickable element does and which wire fields that action uses. Button, QuickReply
    and ListItem each embed one `Interaction`. */
module Interaction {
  import opened Wrappers
  import opened Errors
  import opened PyValue
  import opened PyStrings
  import opened KakaoUtils
  import opened KakaoBase
  import opened Validation

  datatype ActionKind = WebLink | Message | Phone | Block | Share | Operator {
    /** The member's value, sent on the wire as "action". */
    function WireValue(): string {
      match this
      case WebLink => "webLink"
      case Message => "message"
      case Phone => "phone"
      case Block => "block"
      case Share => "share"
      case Operator => "operator"
    }

    /** The member's Python name. */
    function MemberName(): string {
      match this
      case WebLink => "WEBLINK"
      case Message => "MESSAGE"
      case Phone => "PHONE"
      case Block => "BLOCK"
      case Share => "SHARE"
      case Operator => "OPERATOR"
    }
  }

  const AllActions: seq<ActionKind> := [WebLink, Message, Phone, Block, Share, Operator]

  /** `ActionEnum.uses_fields`: the required and the optional wire fields. */
  function UsesFields(a: ActionKind): (Option<seq<string>>, Option<seq<string>>) {
    match a
    case WebLink => (Some(["webLinkUrl"]), None)
    case Message => (Some(["messageText"]), None)
    case Phone => (Some(["phoneNumber"]), None)
    case Block => (Some(["blockId"]), Some(["messageText"]))
    case Share => (None, None)
    case Operator => (None, None)
  }

  function Required(a: ActionKind): seq<string> {
    UsesFields(a).0.GetOr([])
  }

  function Optional(a: ActionKind): seq<string> {
    UsesFields(a).1.GetOr([])
  }

  /** Every field name is longer than "extra", so none of them is "extra". */
  lemma FieldNamesLong(a: ActionKind)
    ensures forall f | f in Required(a) :: |f| > 5
    ensures forall f | f in Optional(a) :: |f| > 5
    ensures "extra" !in Required(a) && "extra" !in Optional(a)
  {
    assert |"extra"| == 5;
  }

  /** The snake_case attribute names of the four wire fields. */
  const AttributeNames: seq<string> := ["web_link_url", "message_text", "phone_number", "block_id"]

  /** A field is never both required and optional, and at most one of each is used. */
  lemma UsesFieldsShape(a: ActionKind)
    ensures forall f | f in Required(a) :: f !in Optional(a)
    ensures |Required(a)| <= 1 && |Optional(a)| <= 1
    ensures (a == Share || a == Operator) <==> Required(a) == []
  {
  }

  /** Every field of the table names one of the four interaction attributes. */
  lemma FieldAttributeNames(a: ActionKind, f: string)
    requires f in Required(a) + Optional(a)
    ensures CamelToSnake(f) in AttributeNames
  {
    assert f in ["webLinkUrl", "messageText", "phoneNumber", "blockId"];
    if f == "webLinkUrl" {
      WebLinkUrlName();
    } else if f == "messageText" {
      MessageTextName();
    } else if f == "phoneNumber" {
      PhoneNumberName();
    } else {
      BlockIdName();
    }
  }

  /** The value given for `action`: an `ActionEnum` member or any other Python value. */
  datatype ActionArg = ByMember(kind: ActionKind) | ByValue(v: Value)

  /** `getattr(ActionEnum, name, None)` followed by the isinstance test. */
  function MemberNamed(name: string): (r: Option<ActionKind>)
    ensures r.Some? ==> r.value.MemberName() == name
    ensures r.None? ==> forall a: ActionKind :: a.MemberName() != name
  {
    if name == "WEBLINK" then Some(WebLink)
    else if name == "MESSAGE" then Some(Message)
    else if name == "PHONE" then Some(Phone)
    else if name == "BLOCK" then Some(Block)
    else if name == "SHARE" then Some(Share)
    else if name == "OPERATOR" then Some(Operator)
    else None
  }

  /** `Interaction.process_action`: a member is kept, a string names a member
      case-insensitively, anything else (None included) is an invalid action. */
  function ProcessAction(arg: ActionArg): (r: Result<ActionKind, Error>)
    ensures r.Failure? ==> r.error == InvalidActionError
    ensures arg.ByMember? ==> r == Success(arg.kind)
    ensures arg.ByValue? && !arg.v.VStr? ==> r.Failure?
    ensures r.Success? && arg.ByValue? ==> arg.v.VStr? && r.value.MemberName() == Upper(arg.v.s)
    ensures r.Failure? && arg.ByValue? && arg.v.VStr? ==> forall a: ActionKind :: a.MemberName() != Upper(arg.v.s)
  {
    var _ :- ValidateType((x: ActionArg) => x == ByValue(VNone), (x: ActionArg) => x.ByMember? || x.v.VStr?,
                          [arg], true, InvalidActionError);
    match arg
    case ByMember(kind) => Success(kind)
    case ByValue(v) =>
      match MemberNamed(Upper(v.s))
      case Some(a) => Success(a)
      case None => Failure(InvalidActionError)
  }

  /** The constructor's handling of `action`: None is stored as None. */
  function InitAction(arg: ActionArg): (r: Result<Option<ActionKind>, Error>)
    ensures arg == ByValue(VNone) ==> r == Success(None)
    ensures arg != ByValue(VNone) ==> r.Success? == ProcessAction(arg).Success?
    ensures arg != ByValue(VNone) && r.Success? ==> r.value == Some(ProcessAction(arg).value)
  {
    if arg == ByValue(VNone) then Success(None)
    else
      var a :- ProcessAction(arg);
      Success(Some(a))
  }

  /** Upper-casing ignores the case of ASCII letters. */
  lemma {:induction false} UpperIgnoresCase(s: string)
    ensures Upper(Lower(s)) == Upper(s)
  {
    if |s| > 0 {
      UpperIgnoresCase(s[1..]);
      assert Lower(s)[1..] == Lower(s[1..]);
    }
  }

  /** `process_action` is case-insensitive, and every member is reachable from its name
      and from its wire value. */
  lemma ProcessActionCaseInsensitive(s: string)
    ensures ProcessAction(ByValue(VStr(Lower(s)))) == ProcessAction(ByValue(VStr(s)))
  {
    UpperIgnoresCase(s);
  }

  lemma ProcessActionByValue(a: ActionKind)
    ensures ProcessAction(ByValue(VStr(a.WireValue()))) == Success(a)
    ensures ProcessAction(ByValue(VStr(a.MemberName()))) == Success(a)
  {
    NamesUpperCase(a);
    ResolvesTo(a.WireValue(), a);
    ResolvesTo(a.MemberName(), a);
  }

  /** A string resolves to the member whose name is its upper case. */
  lemma ResolvesTo(s: string, a: ActionKind)
    requires Upper(s) == a.MemberName()
    ensures ProcessAction(ByValue(VStr(s))) == Success(a)
  {
  }

  /** The wire value and the name of a member both upper-case to the name. */
  lemma NamesUpperCase(a: ActionKind)
    ensures Upper(a.WireValue()) == a.MemberName()
    ensures Upper(a.MemberName()) == a.MemberName()
  {
    match a
    case WebLink => UpperWebLink();
    case Message => UpperMessage();
    case Phone => UpperPhone();
    case Block => UpperBlock();
    case Share => UpperShare();
    case Operator => UpperOperator();
  }

  /** A word whose lower case is that of a name in capitals upper-cases to the name. */
  lemma NameUpperCase(word: string, name: string)
    requires |word| == |name|
    requires forall i | 0 <= i < |name| :: IsUpperAscii(name[i]) && LowerChar(word[i]) == LowerChar(name[i])
    ensures Upper(word) == name && Upper(name) == name
  {
    assert Lower(word) == Lower(name);
    UpperIgnoresCase(word);
    UpperIgnoresCase(name);
    UpperOfCapitals(name);
  }

  lemma UpperWebLink()
    ensures Upper("webLink") == "WEBLINK" && Upper("WEBLINK") == "WEBLINK"
  {
    NameUpperCase("webLink", "WEBLINK");
  }

  lemma UpperMessage()
    ensures Upper("message") == "MESSAGE" && Upper("MESSAGE") == "MESSAGE"
  {
    NameUpperCase("message", "MESSAGE");
  }

  lemma UpperPhone()
    ensures Upper("phone") == "PHONE" && Upper("PHONE") == "PHONE"
  {
    NameUpperCase("phone", "PHONE");
  }

  lemma UpperBlock()
    ensures Upper("block") == "BLOCK" && Upper("BLOCK") == "BLOCK"
  {
    NameUpperCase("block", "BLOCK");
  }

  lemma UpperShare()
    ensures Upper("share") == "SHARE" && Upper("SHARE") == "SHARE"
  {
    NameUpperCase("share", "SHARE");
  }

  lemma UpperOperator()
    ensures Upper("operator") == "OPERATOR" && Upper("OPERATOR") == "OPERATOR"
  {
    NameUpperCase("operator", "OPERATOR");
  }

  /** The state an interactive element carries: its action (None or a member), `extra`,
      and its own attributes by snake_case name, which `getattr` consults. */
  datatype Interaction = Interaction(action: Option<ActionKind>, extra: Value, attrs: Dict)

  /** `getattr(self, camel_to_snake(field))`. */
  function FieldAttr(attrs: Dict, field: string): (r: Result<Value, Error>)
    ensures r.Success? <==> HasKey(attrs, CamelToSnake(field))
    ensures r.Failure? ==> r.error == AttributeError
    ensures r.Success? ==> Get(attrs, CamelToSnake(field)) == Some(r.value)
  {
    match Get(attrs, CamelToSnake(field))
    case Some(v) => Success(v)
    case None => Failure(AttributeError)
  }

  /** One field as `validate` wants it: present, a str, and not None when required. */
  predicate FieldHolds(attrs: Dict, field: string, required: bool) {
    var v := Get(attrs, CamelToSnake(field));
    v.Some? && (v.value.VStr? || (!required && v.value.VNone?))
  }

  /** The loops over the required or the optional fields in `validate`. */
  function ValidateFields(attrs: Dict, fields: seq<string>, required: bool): (r: Outcome)
    ensures r.Success? <==> forall f | f in fields :: FieldHolds(attrs, f, required)
    ensures r.Failure? ==> r.error == AttributeError || r.error == InvalidTypeError
  {
    if |fields| == 0 then Pass
    else
      assert forall f | f in fields :: f == fields[0] || f in fields[1..];
      match FieldAttr(attrs, fields[0])
      case Failure(e) =>
        assert !FieldHolds(attrs, fields[0], required);
        Failure(e)
      case Success(v) =>
        if ValidateStr([v], required).Failure? then
          assert !(v.VStr? || (v.VNone? && !required)) by {
            assert [v][0] == v;
          }
          assert Get(attrs, CamelToSnake(fields[0])) == Some(v);
          assert !FieldHolds(attrs, fields[0], required);
          Failure(InvalidTypeError)
        else
          assert [v][0] == v;
          ValidateFields(attrs, fields[1..], required)
  }

  /** What `validate` accepts, stated directly. */
  predicate Valid(it: Interaction, available: seq<ActionKind>) {
    && (it.extra.VNone? || it.extra.VDict?)
    && (it.action.Some? ==>
          && it.action.value in available
          && (forall f | f in Required(it.action.value) :: FieldHolds(it.attrs, f, true))
          && (forall f | f in Optional(it.action.value) :: FieldHolds(it.attrs, f, false)))
  }

  /** `Interaction.validate` for a class whose `available_action_enums` is `available`. */
  function Validate(it: Interaction, available: seq<ActionKind>): (r: Outcome)
    ensures r.Success? <==> Valid(it, available)
    ensures !(it.extra.VNone? || it.extra.VDict?) ==> r == Failure(InvalidTypeError)
    ensures (it.extra.VNone? || it.extra.VDict?) && it.action.Some? && it.action.value !in available
            ==> r == Failure(InvalidActionError)
  {
    SingleType(DictType);
    assert [it.extra][0] == it.extra;
    var _ :- ValidateValues([DictType], [it.extra], false, InvalidTypeError);
    match it.action
    case None => Pass
    case Some(a) =>
      var _ :- Require(a in available, InvalidActionError);
      var _ :- ValidateFields(it.attrs, Required(a), true);
      ValidateFields(it.attrs, Optional(a), false)
  }

  /** The attribute a field reads (present once `validate` has passed). */
  function AttrOf(attrs: Dict, field: string): Value {
    GetOr(attrs, CamelToSnake(field), VNone)
  }

  /** `response[camel] = getattr(self, snake)` for each field, skipping None values
      when `skipNone` is set. */
  function FieldEntries(attrs: Dict, fields: seq<string>, skipNone: bool): (d: Dict)
    ensures |d| <= |fields|
    ensures forall e | e in d :: e.0 in fields && e.1 == AttrOf(attrs, e.0)
    ensures forall f | f in fields && !(skipNone && AttrOf(attrs, f).VNone?) :: (f, AttrOf(attrs, f)) in d
  {
    if |fields| == 0 then []
    else
      var v := AttrOf(attrs, fields[0]);
      var head := if skipNone && v.VNone? then [] else [(fields[0], v)];
      head + FieldEntries(attrs, fields[1..], skipNone)
  }

  /** A single field gives at most its own entry. */
  lemma SingleFieldEntries(attrs: Dict, f: string, skipNone: bool)
    ensures FieldEntries(attrs, [f], skipNone)
         == if skipNone && AttrOf(attrs, f).VNone? then [] else [(f, AttrOf(attrs, f))]
  {
    var fields: seq<string> := [f];
    assert fields[1..] == [];
    var head: Dict := if skipNone && AttrOf(attrs, f).VNone? then [] else [(f, AttrOf(attrs, f))];
    assert FieldEntries(attrs, fields, skipNone) == head + FieldEntries(attrs, [], skipNone);
    assert head + [] == head;
  }

  /** The dict `render` builds before `remove_none_item`. */
  function Response(it: Interaction, a: ActionKind): Dict {
    [("action", VStr(a.WireValue()))]
    + FieldEntries(it.attrs, Required(a), false)
    + FieldEntries(it.attrs, Optional(a), true)
    + (if it.extra.VNone? then [] else [("extra", it.extra)])
  }

  /** `Interaction.render`: {} without an action; otherwise validate, then build the
      response (see `RenderContents`). */
  function Render(it: Interaction, available: seq<ActionKind>): (r: Result<Dict, Error>)
    ensures it.action.None? ==> r == Success([])
    ensures it.action.Some? ==> (r.Success? <==> Valid(it, available))
    ensures it.action.Some? && r.Failure? ==> Validate(it, available) == Failure(r.error)
  {
    match it.action
    case None => Success([])
    case Some(a) =>
      var _ :- Validate(it, available);
      Success(RemoveNone(Response(it, a)))
  }

  /** A rendered interaction holds "action" first, then exactly the required fields, the
      optional fields that are set and "extra" when set; nothing in it is None. */
  lemma RenderContents(it: Interaction, available: seq<ActionKind>)
    requires it.action.Some? && Valid(it, available)
    ensures var a := it.action.value;
      var out := Render(it, available).value;
      && |out| > 0 && out[0] == ("action", VStr(a.WireValue()))
      && (forall f | f in Required(a) :: (f, AttrOf(it.attrs, f)) in out)
      && (forall f | f in Optional(a) :: (f, AttrOf(it.attrs, f)) in out <==> !AttrOf(it.attrs, f).VNone?)
      && (("extra", it.extra) in out <==> !it.extra.VNone?)
      && (forall e | e in out :: e.0 in ["action", "extra"] + Required(a) + Optional(a))
  {
    var a := it.action.value;
    var response := Response(it, a);
    var out := Render(it, available).value;
    assert out == RemoveNone(response);
    ResponseParts(it, a);
    assert |out| > 0 && out[0] == ("action", VStr(a.WireValue())) by {
      RemoveNoneConcat([response[0]], response[1..]);
      assert response == [response[0]] + response[1..];
    }
    forall f | f in Required(a) ensures (f, AttrOf(it.attrs, f)) in out {
      assert FieldHolds(it.attrs, f, true);
    }
    forall f | f in Optional(a) ensures (f, AttrOf(it.attrs, f)) in out <==> !AttrOf(it.attrs, f).VNone? {
    }
  }

  /** Where each entry of the pre-strip response comes from. */
  lemma ResponseParts(it: Interaction, a: ActionKind)
    ensures var response := Response(it, a);
      && response[0] == ("action", VStr(a.WireValue()))
      && (forall f | f in Required(a) :: (f, AttrOf(it.attrs, f)) in response)
      && (forall f | f in Optional(a) && !AttrOf(it.attrs, f).VNone? :: (f, AttrOf(it.attrs, f)) in response)
      && (("extra", it.extra) in response <==> !it.extra.VNone?)
      && (forall e | e in response :: e.0 in ["action", "extra"] + Required(a) + Optional(a))
  {
    ResponseSplit(it, a);
    ResponseKeys(it, a);
    ResponseExtra(it, a);
  }

  /** The pre-strip response is the action, the required entries, the optional entries
      and the extra entry, in that order. */
  lemma ResponseSplit(it: Interaction, a: ActionKind)
    ensures Response(it, a) == [("action", VStr(a.WireValue()))] + FieldEntries(it.attrs, Required(a), false)
                               + FieldEntries(it.attrs, Optional(a), true) + (if it.extra.VNone? then [] else [("extra", it.extra)])
  {
  }

  /** Every key of the pre-strip response is "action", "extra" or a field of the action. */
  lemma ResponseKeys(it: Interaction, a: ActionKind)
    ensures forall e | e in Response(it, a) :: e.0 in ["action", "extra"] + Required(a) + Optional(a)
  {
    var req := FieldEntries(it.attrs, Required(a), false);
    var opt := FieldEntries(it.attrs, Optional(a), true);
    var ext: Dict := if it.extra.VNone? then [] else [("extra", it.extra)];
    ResponseSplit(it, a);
    forall e | e in Response(it, a) ensures e.0 in ["action", "extra"] + Required(a) + Optional(a) {
      assert e in [("action", VStr(a.WireValue()))] || e in req || e in opt || e in ext;
    }
  }

  /** The pre-strip response holds "extra" exactly when it is set. */
  lemma ResponseExtra(it: Interaction, a: ActionKind)
    ensures ("extra", it.extra) in Response(it, a) <==> !it.extra.VNone?
  {
    var req := FieldEntries(it.attrs, Required(a), false);
    var opt := FieldEntries(it.attrs, Optional(a), true);
    ResponseSplit(it, a);
    FieldNamesLong(a);
    if ("extra", it.extra) in Response(it, a) {
      assert ("extra", it.extra) !in req && ("extra", it.extra) !in opt;
    }
  }

  /** A rendered interaction never repeats a key. */
  lemma RenderUniqueKeys(it: Interaction, available: seq<ActionKind>)
    requires it.action.Some? && Valid(it, available)
    ensures UniqueKeys(Render(it, available).value)
  {
    ResponseUniqueKeys(it, it.action.value);
    RemoveNoneKeys(Response(it, it.action.value));
  }

  /** The four wire field names. */
  const FieldNames: seq<string> := ["webLinkUrl", "messageText", "phoneNumber", "blockId"]

  lemma FieldsAreFieldNames(a: ActionKind)
    ensures forall f | f in Required(a) :: f in FieldNames
    ensures forall f | f in Optional(a) :: f in FieldNames
  {
  }

  /** A dict of at most one entry has unique keys. */
  lemma SmallUniqueKeys(d: Dict)
    requires |d| <= 1
    ensures UniqueKeys(d)
  {
  }

  /** "action", then at most one entry keyed by a required field, at most one keyed by
      an optional field, and at most an "extra": no key repeats. */
  lemma PartsUniqueKeys(head: Dict, req: Dict, opt: Dict, ext: Dict, required: seq<string>, optional: seq<string>)
    requires |head| <= 1 && |req| <= 1 && |opt| <= 1 && |ext| <= 1
    requires forall e | e in head :: e.0 == "action"
    requires forall e | e in ext :: e.0 == "extra"
    requires forall e | e in req :: e.0 in required && e.0 in FieldNames
    requires forall e | e in opt :: e.0 in optional && e.0 in FieldNames
    requires forall f | f in required :: f !in optional
    ensures UniqueKeys(head + req + opt + ext)
  {
    SmallUniqueKeys(head);
    SmallUniqueKeys(req);
    SmallUniqueKeys(opt);
    SmallUniqueKeys(ext);
    UniqueKeysConcat(head, req);
    UniqueKeysConcat(head + req, opt);
    UniqueKeysConcat(head + req + opt, ext);
  }

  /** The pre-strip response never repeats a key. */
  lemma ResponseUniqueKeys(it: Interaction, a: ActionKind)
    ensures UniqueKeys(Response(it, a))
  {
    var head: Dict := [("action", VStr(a.WireValue()))];
    var req := FieldEntries(it.attrs, Required(a), false);
    var opt := FieldEntries(it.attrs, Optional(a), true);
    var ext: Dict := if it.extra.VNone? then [] else [("extra", it.extra)];
    UsesFieldsShape(a);
    FieldsAreFieldNames(a);
    PartsUniqueKeys(head, req, opt, ext, Required(a), Optional(a));
    assert Response(it, a) == head + req + opt + ext;
  }

  /** The keys a rendered interaction may use. */
  predicate InteractionKey(k: string) {
    k == "action" || k == "extra" || k in FieldNames
  }

  /** A rendered interaction starts with "action", uses only interaction keys and never
      repeats one. */
  lemma RenderKeys(it: Interaction, available: seq<ActionKind>)
    requires it.action.Some? && Valid(it, available)
    ensures var out := Render(it, available).value;
      && |out| > 0 && out[0] == ("action", VStr(it.action.value.WireValue()))
      && UniqueKeys(out)
      && (forall e | e in out :: InteractionKey(e.0))
  {
    var a := it.action.value;
    RenderContents(it, available);
    RenderUniqueKeys(it, available);
    FieldsAreFieldNames(a);
  }

  /** Updating a dict that holds no interaction key with a rendered interaction appends
      the interaction's entries in order. */
  lemma MergeAfter(own: Dict, inter: Dict)
    requires UniqueKeys(inter) && forall e | e in inter :: InteractionKey(e.0)
    requires forall e | e in own :: !InteractionKey(e.0)
    ensures Update(own, inter) == own + inter
  {
    forall i | 0 <= i < |inter| ensures !HasKey(own, inter[i].0) {
      assert inter[i] in inter;
    }
    UpdateFresh(own, inter);
  }

  /** `response.update(Interaction.render(self))` on a response whose keys are none of
      "action", "extra" or a wire field appends the interaction's entries in order. */
  lemma RenderMerges(own: Dict, it: Interaction, available: seq<ActionKind>)
    requires it.action.Some? && Valid(it, available)
    requires forall e | e in own :: !InteractionKey(e.0)
    ensures Update(own, Render(it, available).value) == own + Render(it, available).value
  {
    RenderKeys(it, available);
    MergeAfter(own, Render(it, available).value);
  }
}
