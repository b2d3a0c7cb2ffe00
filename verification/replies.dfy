/** The two small objects of kakao/response/base.py besides the envelope: the quick
    reply, an interaction with a label that a response lists under "quickReplies", and
    the answer a parameter-validation skill returns. */
module Replies {
  import opened Wrappers
  import opened Errors
  import opened PyValue
  import opened PyStrings
  import opened KakaoBase
  import opened Validation
  import opened Common
  import opened KakaoUtils
  import Interaction

  // ---------------------------------------------------------- QuickReply

  /** `QuickReply.available_action_enums`. */
  const QuickReplyActions: seq<Interaction.ActionKind> := [Interaction.Message, Interaction.Block]

  datatype QuickReply = QuickReply(
    labelText: Value, action: Option<Interaction.ActionKind>, messageText: Value, blockId: Value, extra: Value)

  /** The interaction part of a quick reply. It has only the two field attributes its
      actions use; the others are never looked up, since any other action is refused
      before the fields are. */
  function QuickReplyInteraction(q: QuickReply): (it: Interaction.Interaction)
    ensures q.blockId == VNone && q.messageText.VStr? ==> it.attrs == MessageAttrs(q.messageText.s)
  {
    Interaction.Interaction(q.action, q.extra, [("message_text", q.messageText), ("block_id", q.blockId)])
  }

  /** `QuickReply(label, action, message_text, block_id, extra)`: the action goes
      through `process_action` unless None; nothing else is checked. */
  function NewQuickReply(labelText: Value, action: Interaction.ActionArg, messageText: Value,
                         blockId: Value, extra: Value): (r: Result<QuickReply, Error>)
    ensures r.Success? <==> Interaction.InitAction(action).Success?
    ensures r.Failure? ==> r.error == InvalidActionError
    ensures r.Success? ==> r.value.action == Interaction.InitAction(action).value
    ensures r.Success? ==>
      r.value.labelText == labelText && r.value.messageText == messageText && r.value.blockId == blockId && r.value.extra == extra
  {
    var a :- Interaction.InitAction(action);
    Success(QuickReply(labelText, a, messageText, blockId, extra))
  }

  /** The default action "Message" is MESSAGE. */
  lemma DefaultActionIsMessage()
    ensures Interaction.InitAction(Interaction.ByValue(VStr("Message"))) == Success(Some(Interaction.Message))
  {
    Interaction.NameUpperCase("Message", "MESSAGE");
    Interaction.ResolvesTo("Message", Interaction.Message);
  }

  /** What `QuickReply.validate` accepts. */
  predicate QuickReplyValid(q: QuickReply) {
    && StrOrNone(q.labelText) && StrOrNone(q.messageText) && StrOrNone(q.blockId)
    && Interaction.Valid(QuickReplyInteraction(q), QuickReplyActions)
  }

  /** `QuickReply.validate`: label, message text and block id str or None, then the
      interaction with MESSAGE and BLOCK available. */
  function ValidateQuickReply(q: QuickReply): (r: Outcome)
    ensures r.Success? <==> QuickReplyValid(q)
    ensures StrOrNone(q.labelText) && StrOrNone(q.messageText) && StrOrNone(q.blockId)
      && (q.extra.VNone? || q.extra.VDict?) && q.action.Some? && q.action.value !in QuickReplyActions
      ==> r == Failure(InvalidActionError)
  {
    var vs := [q.labelText, q.messageText, q.blockId];
    assert vs[0] == q.labelText && vs[1] == q.messageText && vs[2] == q.blockId;
    var _ :- ValidateStr(vs, false);
    Interaction.Validate(QuickReplyInteraction(q), QuickReplyActions)
  }

  /** `QuickReply.render`: validate, then "label" (None included) updated with the
      interaction's output (see `QuickReplyContents`). */
  function RenderQuickReply(q: QuickReply): (r: Result<Dict, Error>)
    ensures r.Success? <==> QuickReplyValid(q)
    ensures r.Failure? ==> ValidateQuickReply(q) == Failure(r.error)
  {
    var _ :- ValidateQuickReply(q);
    Success(Update([("label", q.labelText)],
                   Interaction.Render(QuickReplyInteraction(q), QuickReplyActions).value))
  }

  /** A rendered quick reply is the label entry followed by the rendered interaction. */
  lemma QuickReplyContents(q: QuickReply)
    requires RenderQuickReply(q).Success?
    ensures var out := RenderQuickReply(q).value;
      && out == [("label", q.labelText)] + Interaction.Render(QuickReplyInteraction(q), QuickReplyActions).value
      && (q.action.None? ==> out == [("label", q.labelText)])
      && (q.action.Some? ==> |out| >= 2 && out[1] == ("action", VStr(q.action.value.WireValue())))
  {
    var it := QuickReplyInteraction(q);
    if q.action.Some? {
      Interaction.RenderKeys(it, QuickReplyActions);
      LabelThenInteraction(q.labelText, Interaction.Render(it, QuickReplyActions).value);
    }
  }

  /** Any action can be given to the constructor, but only MESSAGE and BLOCK render:
      the others raise InvalidActionError at `render`, however the rest is set. */
  lemma OnlyMessageAndBlockRender(labelText: Value, a: Interaction.ActionKind, messageText: Value,
                                  blockId: Value, extra: Value)
    requires StrOrNone(labelText) && StrOrNone(messageText) && StrOrNone(blockId)
    requires extra.VNone? || extra.VDict?
    requires a !in QuickReplyActions
    ensures NewQuickReply(labelText, Interaction.ByMember(a), messageText, blockId, extra).Success?
    ensures RenderQuickReply(NewQuickReply(labelText, Interaction.ByMember(a), messageText, blockId, extra).value)
      == Failure(InvalidActionError)
  {
  }

  /** The attributes of a quick reply with a text and no block id. */
  function MessageAttrs(text: string): Dict {
    [("message_text", VStr(text)), ("block_id", VNone)]
  }

  /** The text is what the "messageText" field reads. */
  lemma MessageAttr(text: string, attrs: Dict)
    requires attrs == MessageAttrs(text)
    ensures Interaction.AttrOf(attrs, "messageText") == VStr(text)
    ensures Interaction.FieldHolds(attrs, "messageText", true)
  {
    MessageTextName();
    assert Get(attrs, "message_text") == Some(VStr(text));
  }

  /** The interaction of a message quick reply with a text passes validation. */
  lemma MessageInteractionValid(text: string, it: Interaction.Interaction)
    requires it == Interaction.Interaction(Some(Interaction.Message), VNone, MessageAttrs(text))
    ensures Interaction.Valid(it, QuickReplyActions)
  {
    MessageFieldsHold(text, it.attrs);
    assert QuickReplyActions[0] == Interaction.Message;
  }

  /** Those attributes meet what MESSAGE requires, and it has no optional field. */
  lemma MessageFieldsHold(text: string, attrs: Dict)
    requires attrs == MessageAttrs(text)
    ensures forall f | f in Interaction.Required(Interaction.Message) :: Interaction.FieldHolds(attrs, f, true)
    ensures Interaction.Optional(Interaction.Message) == []
  {
    MessageAttr(text, attrs);
    var fields: seq<string> := ["messageText"];
    assert Interaction.Required(Interaction.Message) == fields;
    assert forall f | f in fields :: f == "messageText";
  }

  /** The field entries MESSAGE writes: the required text. */
  lemma MessageFieldEntries(attrs: Dict, v: Value)
    requires Interaction.AttrOf(attrs, "messageText") == v
    ensures Interaction.FieldEntries(attrs, Interaction.Required(Interaction.Message), false) == [("messageText", v)]
  {
    var fields: seq<string> := ["messageText"];
    assert Interaction.Required(Interaction.Message) == fields;
    Interaction.SingleFieldEntries(attrs, "messageText", false);
  }

  /** The response dict of that interaction before None values are dropped. */
  lemma MessageResponse(text: string, it: Interaction.Interaction)
    requires it == Interaction.Interaction(Some(Interaction.Message), VNone, MessageAttrs(text))
    ensures Interaction.Response(it, Interaction.Message) == [("action", VStr("message")), ("messageText", VStr(text))]
  {
    MessageAttr(text, it.attrs);
    MessageFieldsHold(text, it.attrs);
    MessageFieldEntries(it.attrs, VStr(text));
    var action := ("action", VStr(Interaction.ActionKind.Message.WireValue()));
    var req := Interaction.FieldEntries(it.attrs, Interaction.Required(Interaction.Message), false);
    var opt := Interaction.FieldEntries(it.attrs, Interaction.Optional(Interaction.Message), true);
    assert Interaction.Response(it, Interaction.Message) == [action] + req + opt + [];
    PrependParts(action, ("messageText", VStr(text)), req, opt, []);
  }

  /** A valid interaction with an action renders to its response without the None
      values. */
  lemma RenderValidInteraction(it: Interaction.Interaction, available: seq<Interaction.ActionKind>, out: Dict)
    requires it.action.Some? && Interaction.Valid(it, available)
    requires out == RemoveNone(Interaction.Response(it, it.action.value))
    ensures Interaction.Render(it, available) == Success(out)
  {
  }

  /** Two entries whose values are not None are kept by `remove_none_item`. */
  lemma NoNoneTwo(a: (string, Value), b: (string, Value))
    requires !a.1.VNone? && !b.1.VNone?
    ensures RemoveNone([a, b]) == [a, b]
  {
    RemoveNoneNoOp([a, b]);
  }

  /** The interaction of a message quick reply with a text renders to the action and
      the text. */
  lemma MessageInteraction(text: string, it: Interaction.Interaction)
    requires it == Interaction.Interaction(Some(Interaction.Message), VNone, MessageAttrs(text))
    ensures Interaction.Render(it, QuickReplyActions) == Success([("action", VStr("message")), ("messageText", VStr(text))])
  {
    var out := [("action", VStr("message")), ("messageText", VStr(text))];
    MessageInteractionValid(text, it);
    MessageResponse(text, it);
    NoNoneTwo(out[0], out[1]);
    RenderValidInteraction(it, QuickReplyActions, out);
  }

  /** A quick reply with action MESSAGE, a text and no extra renders to exactly its
      label, the action "message" and the text. */
  lemma MessageQuickReplyRenders(labelText: string, text: string, q: QuickReply)
    requires q == QuickReply(VStr(labelText), Some(Interaction.Message), VStr(text), VNone, VNone)
    ensures RenderQuickReply(q)
      == Success([("label", VStr(labelText)), ("action", VStr("message")), ("messageText", VStr(text))])
  {
    MessageInteraction(text, QuickReplyInteraction(q));
    var inter := [("action", VStr("message")), ("messageText", VStr(text))];
    QuickReplyContents(q);
    PrependOne(("label", VStr(labelText)), inter[0], inter[1]);
  }

  /** The default quick reply: action "Message", a text and no extra. It is built and
      renders to exactly its label, the action "message" and the text. */
  lemma MessageQuickReply(labelText: string, text: string)
    ensures var q := NewQuickReply(VStr(labelText), Interaction.ByValue(VStr("Message")), VStr(text), VNone, VNone);
      && q.Success?
      && RenderQuickReply(q.value)
        == Success([("label", VStr(labelText)), ("action", VStr("message")), ("messageText", VStr(text))])
  {
    DefaultActionIsMessage();
    var q := QuickReply(VStr(labelText), Some(Interaction.Message), VStr(text), VNone, VNone);
    assert NewQuickReply(VStr(labelText), Interaction.ByValue(VStr("Message")), VStr(text), VNone, VNone) == Success(q);
    MessageQuickReplyRenders(labelText, text, q);
  }

  // -------------------------------------------------- ValidationResponse

  /** The statuses a validation answer may carry. */
  const Statuses: seq<string> := ["SUCCESS", "FAIL", "ERROR", "IGNORE"]

  const BadStatus := "status는 SUCCESS, FAIL, ERROR, IGNORE 중 하나여야 합니다."

  /** The status is kept upper-cased, so it is always a str. */
  datatype ValidationResponse = ValidationResponse(status: string, value: Value, data: Value, message: Value)

  /** `ValidationResponse(status, value, data, message)`: `status.upper()` raises
      AttributeError for a status that is not a str. */
  function NewValidationResponse(status: Value, value: Value, data: Value, message: Value): (r: Result<ValidationResponse, Error>)
    ensures r.Success? <==> status.VStr?
    ensures r.Failure? ==> r.error == AttributeError
    ensures r.Success? ==> r.value == ValidationResponse(Upper(status.s), value, data, message)
  {
    if status.VStr? then Success(ValidationResponse(Upper(status.s), value, data, message))
    else Failure(AttributeError)
  }

  /** `ValidationResponse.validate`: one of the four statuses (ValueError otherwise),
      then value and message str or None. `data` is not checked. The leading
      `validate_str(self.status)` always passes, since the status is a str by
      construction, and is not repeated here. */
  function ValidateValidationResponse(v: ValidationResponse): (r: Outcome)
    ensures r.Success? <==> v.status in Statuses && StrOrNone(v.value) && StrOrNone(v.message)
    ensures v.status !in Statuses ==> r == Failure(ValueError(BadStatus))
    ensures v.status in Statuses && r.Failure? ==> r.error == InvalidTypeError
  {
    var _ :- Require(v.status in Statuses, ValueError(BadStatus));
    var vs := [v.value, v.message];
    assert vs[0] == v.value && vs[1] == v.message;
    ValidateStr(vs, false)
  }

  /** The entries `ValidationResponse.render` starts from. */
  function ValidationEntries(v: ValidationResponse): (base: Dict)
    ensures UniqueKeys(base)
    ensures |base| == 4 && base[0] == ("status", VStr(v.status))
    ensures forall i | 0 <= i < 4 :: base[i].0 in ValidationKeys
  {
    [("status", VStr(v.status)), ("value", v.value), ("data", v.data), ("message", v.message)]
  }

  const ValidationKeys: seq<string> := ["status", "value", "data", "message"]

  /** The dict a valid validation answer renders to: the status, then value, data and
      message unless None. */
  function ValidationBody(v: ValidationResponse): (out: Dict)
    ensures UniqueKeys(out) && |out| >= 1 && out[0] == ("status", VStr(v.status))
    ensures forall i | 0 <= i < |out| :: out[i].0 in ValidationKeys
  {
    var base := ValidationEntries(v);
    RemoveNoneKeys(base);
    assert RemoveNone(base) == [base[0]] + RemoveNone(base[1..]);
    forall i | 0 <= i < |RemoveNone(base)| ensures RemoveNone(base)[i].0 in ValidationKeys {
      assert RemoveNone(base)[i] in base;
    }
    RemoveNone(base)
  }

  /** The optional fields of a validation answer appear exactly when they are not None. */
  lemma ValidationBodyFields(v: ValidationResponse)
    ensures Get(ValidationBody(v), "value") == Present(v.value)
    ensures Get(ValidationBody(v), "data") == Present(v.data)
    ensures Get(ValidationBody(v), "message") == Present(v.message)
  {
    var base := ValidationEntries(v);
    StrippedGet(base, "value");
    StrippedGet(base, "data");
    StrippedGet(base, "message");
    GetUnique(base, 1);
    GetUnique(base, 2);
    GetUnique(base, 3);
  }

  /** `ValidationResponse.render`: validate, then status, value, data and message with
      the None ones dropped (see `ValidationBody` and `ValidationBodyFields`). */
  function RenderValidationResponse(v: ValidationResponse): (r: Result<Dict, Error>)
    ensures r.Success? <==> ValidateValidationResponse(v).Success?
    ensures r.Failure? ==> ValidateValidationResponse(v) == Failure(r.error)
    ensures r.Success? ==> r.value == ValidationBody(v)
  {
    var _ :- ValidateValidationResponse(v);
    Success(ValidationBody(v))
  }

  /** The status is compared after upper-casing, so it may be given in any case. */
  lemma StatusCaseInsensitive(status: string, value: Value, data: Value, message: Value)
    ensures NewValidationResponse(VStr(Lower(status)), value, data, message)
         == NewValidationResponse(VStr(status), value, data, message)
  {
    Interaction.UpperIgnoresCase(status);
  }

  /** "success" is accepted: it becomes "SUCCESS". */
  lemma LowerCaseSuccess(value: Value, message: Value)
    requires StrOrNone(value) && StrOrNone(message)
    ensures var v := NewValidationResponse(VStr("success"), value, VNone, message);
      && v.Success? && v.value.status == "SUCCESS"
      && ValidateValidationResponse(v.value).Success?
  {
    Interaction.NameUpperCase("success", "SUCCESS");
  }
}
