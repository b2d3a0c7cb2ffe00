/** The skill response a handler returns (`KakaoResponse` in kakao/response/base.py): up
    to three output components, up to ten quick replies, contexts and free-form data,
    rendered into the `{"version": "2.0", "template": …}` envelope the chatbot platform
    reads. Responses are values here: every mutating method returns the new response.
    The Python object is changed in place and may share its lists with the caller, and
    that aliasing is not modelled. */
module Envelope {
  import opened Wrappers
  import opened Errors
  import opened PyValue
  import opened KakaoBase
  import opened Validation
  import opened Lists
  import opened Each
  import Components
  import Replies
  import KakaoContext
  import Interaction

  type Component = Components.Component
  type QuickReply = Replies.QuickReply
  type Context = KakaoContext.Context

  /** `max_component_count` and `max_quick_reply_count`, fixed by the constructor. */
  const MaxComponents: nat := 3
  const MaxQuickReplies: nat := 10

  const TooManyComponents := "최대 3개의 ParentComponent을 포함할 수 있습니다."
  const TooManyQuickReplies := "최대 10개의 QuickReply를 포함할 수 있습니다."

  /** The four lists and the data. A list element that is not an instance of the
      expected class is a plain value. */
  datatype Response = Response(
    components: seq<Ref<Component>>,
    quickReplies: seq<Ref<QuickReply>>,
    contexts: seq<Ref<Context>>,
    data: Value)

  // ----------------------------------------------------------- construction

  /** What the constructor accepts for `component_list` and `quick_replies`: nothing
      (None), one object, or a list. */
  datatype ListArg<T> = NotGiven | Single(obj: T) | Listed(items: seq<Ref<T>>)

  /** The list the constructor stores for such an argument. */
  function AsList<T>(arg: ListArg<T>): (xs: seq<Ref<T>>)
    ensures arg.NotGiven? ==> xs == []
    ensures arg.Single? ==> xs == [Inst(arg.obj)]
    ensures arg.Listed? ==> xs == arg.items
  {
    match arg
    case NotGiven => []
    case Single(x) => [Inst(x)]
    case Listed(items) => items
  }

  /** `KakaoResponse(component_list, quick_replies, contexts, data)`: a single component
      or quick reply is wrapped in a list, None becomes an empty list, and nothing is
      checked. */
  function NewResponse(components: ListArg<Component>, quickReplies: ListArg<QuickReply>,
                       contexts: Option<seq<Ref<Context>>>, data: Value): (r: Response)
    ensures r.components == AsList(components) && r.quickReplies == AsList(quickReplies)
    ensures r.contexts == contexts.GetOr([]) && r.data == data
  {
    Response(AsList(components), AsList(quickReplies), contexts.GetOr([]), data)
  }

  /** `KakaoResponse()`. */
  const Empty: Response := NewResponse(NotGiven, NotGiven, None, VNone)

  // -------------------------------------------------------------- is_empty

  /** `is_empty` as written: `bool(self.component_list)`, which is True when there ARE
      components. */
  function IsEmptyAsWritten(r: Response): (b: bool)
    ensures b <==> Truthy(VList(seq(|r.components|, i requires 0 <= i < |r.components| => r.components[i].AsValue())))
  {
    |r.components| > 0
  }

  /** `is_empty` as its name and documentation promise: True when there are no
      components. */
  function IsEmpty(r: Response): (b: bool)
    ensures b <==> forall c :: c !in r.components
  {
    if |r.components| == 0 then true
    else
      assert r.components[0] in r.components;
      false
  }

  /** The written property answers the opposite question for every response: a fresh
      response, which has no component, reports that it is not empty. */
  lemma IsEmptyInverted(r: Response)
    ensures IsEmptyAsWritten(r) == !IsEmpty(r)
    ensures IsEmpty(Empty) && !IsEmptyAsWritten(Empty)
  {
  }

  // -------------------------------------------------------------- validate

  /** What `validate` accepts. Since every context fails its own validation, a response
      that validates has no context at all. */
  predicate Valid(r: Response) {
    && |r.components| <= MaxComponents
    && (forall i | 0 <= i < |r.components| :: Validates(r.components[i], Components.Validate))
    && |r.quickReplies| <= MaxQuickReplies
    && (forall i | 0 <= i < |r.quickReplies| :: Validates(r.quickReplies[i], Replies.ValidateQuickReply))
    && |r.contexts| == 0
    && (r.data.VNone? || r.data.VDict?)
  }

  /** `KakaoResponse.validate`: the component count, each component, the quick-reply
      count, each quick reply, each context, then `validate_type(dict, data)`. */
  function Validate(r: Response): (res: Outcome)
    ensures res.Success? <==> Valid(r)
    ensures |r.components| > MaxComponents ==> res == Failure(ValueError(TooManyComponents))
    ensures |r.components| <= MaxComponents && ValidateEach(r.components, Components.Validate).Success?
            && |r.quickReplies| > MaxQuickReplies
            ==> res == Failure(ValueError(TooManyQuickReplies))
  {
    var _ :- Require(|r.components| <= MaxComponents, ValueError(TooManyComponents));
    var _ :- ValidateEach(r.components, Components.Validate);
    var _ :- Require(|r.quickReplies| <= MaxQuickReplies, ValueError(TooManyQuickReplies));
    var _ :- ValidateEach(r.quickReplies, Replies.ValidateQuickReply);
    var _ :- ValidateEach(r.contexts, KakaoContext.Validate);
    NoContextValidates(r.contexts);
    SingleType(DictType);
    assert [r.data][0] == r.data;
    ValidateValues([DictType], [r.data], false, InvalidTypeError)
  }

  /** A context makes an otherwise valid response fail: an instance with
      InvalidTypeError, anything else with AssertionError. */
  lemma ContextNeverValidates(r: Response)
    requires |r.components| <= MaxComponents
    requires forall i | 0 <= i < |r.components| :: Validates(r.components[i], Components.Validate)
    requires |r.quickReplies| <= MaxQuickReplies
    requires forall i | 0 <= i < |r.quickReplies| :: Validates(r.quickReplies[i], Replies.ValidateQuickReply)
    requires |r.contexts| > 0
    ensures Validate(r) == Failure(if r.contexts[0].Inst? then InvalidTypeError else AssertionError)
  {
    assert !Validates(r.contexts[0], KakaoContext.Validate);
  }

  /** The context loop of `validate` gets through only an empty list. */
  lemma NoContextValidates(contexts: seq<Ref<Context>>)
    ensures ValidateEach(contexts, KakaoContext.Validate).Success? ==> |contexts| == 0
  {
    if |contexts| > 0 {
      assert !Validates(contexts[0], KakaoContext.Validate);
    }
  }

  // ---------------------------------------------------------------- render

  /** `{component.__class__.name: component.render()}`: one entry of "outputs". */
  function Output(c: Component): (r: Result<Dict, Error>)
    ensures r.Success? <==> Components.Render(c).Success?
    ensures r.Success? ==> r.value == [(c.KindOf().Name(), VDict(Components.Render(c).value))]
  {
    var d :- Components.Render(c);
    Success([(c.KindOf().Name(), VDict(d))])
  }

  /** The "template" dict: "outputs" when there are components, "quickReplies" when
      there are quick replies. */
  function Template(outputs: seq<Value>, replies: seq<Value>): (t: Dict)
    ensures UniqueKeys(t)
    ensures Get(t, "outputs") == if |outputs| > 0 then Some(VList(outputs)) else None
    ensures Get(t, "quickReplies") == if |replies| > 0 then Some(VList(replies)) else None
    ensures |t| == 0 <==> |outputs| == 0 && |replies| == 0
  {
    (if |outputs| > 0 then [("outputs", VList(outputs))] else [])
    + (if |replies| > 0 then [("quickReplies", VList(replies))] else [])
  }

  /** The "context" value: None without contexts, `{"values": [...]}` otherwise. */
  function ContextsValue(contexts: seq<Ref<Context>>): (v: Result<Value, Error>)
    ensures |contexts| == 0 ==> v == Success(VNone)
  {
    if |contexts| == 0 then Success(VNone)
    else
      var values :- RenderEach(contexts, (c: Context) => Success(KakaoContext.Render(c)));
      Success(VDict([("values", VList(values))]))
  }

  /** The dict `render` builds before `remove_none_item`. */
  function Envelope(template: Dict, context: Value, data: Value): Dict {
    [ ("version", VStr("2.0")),
      ("template", if |template| > 0 then VDict(template) else VNone),
      ("context", context),
      ("data", if Truthy(data) then data else VNone) ]
  }

  /** What `render` needs beyond `validate`: every component and quick reply renders. */
  predicate RendersAll(r: Response) {
    && (forall i | 0 <= i < |r.components| :: Renders(r.components[i], Output))
    && (forall i | 0 <= i < |r.quickReplies| :: Renders(r.quickReplies[i], Replies.RenderQuickReply))
  }

  /** The four keys of the envelope are distinct. */
  lemma EnvelopeKeys(template: Dict, context: Value, data: Value)
    ensures UniqueKeys(Envelope(template, context, data))
  {
    var base := Envelope(template, context, data);
    assert forall i, j | 0 <= i < j < 4 :: base[i].0 != base[j].0;
  }

  /** The stripped envelope: "version" first, "template" when there is anything to
      show, "context" when set and "data" when truthy. */
  function Assemble(outputs: seq<Value>, replies: seq<Value>, context: Value, data: Value): (d: Dict)
    ensures UniqueKeys(d) && |d| >= 1 && d[0] == ("version", VStr("2.0"))
    ensures Get(d, "template") == if |outputs| > 0 || |replies| > 0 then Some(VDict(Template(outputs, replies))) else None
    ensures Get(d, "context") == Present(context)
    ensures Get(d, "data") == if Truthy(data) then Some(data) else None
  {
    var base := Envelope(Template(outputs, replies), context, data);
    EnvelopeKeys(Template(outputs, replies), context, data);
    assert RemoveNone(base) == [base[0]] + RemoveNone(base[1..]);
    RemoveNoneKeys(base);
    StrippedGet(base, "template");
    StrippedGet(base, "context");
    StrippedGet(base, "data");
    GetUnique(base, 1);
    GetUnique(base, 2);
    GetUnique(base, 3);
    assert Truthy(data) ==> !data.VNone?;
    RemoveNone(base)
  }

  /** `KakaoResponse.render`: validate, render the outputs and the quick replies, then
      version, template, context and data without the None entries (see `Assemble`). */
  function Render(r: Response): (res: Result<Dict, Error>)
    ensures res.Success? <==> Valid(r) && RendersAll(r)
  {
    var _ :- Validate(r);
    var outputs :- RenderEach(r.components, Output);
    var replies :- RenderEach(r.quickReplies, Replies.RenderQuickReply);
    var context := ContextsValue(r.contexts).value;
    Success(Assemble(outputs, replies, context, r.data))
  }

  // ------------------------------------- the two ParentComponent classes

  /* response/base.py declares a `ParentComponent` of its own (line 100), while every
     component class derives from the one in components/base.py. The `isinstance` tests
     of the constructor, of `validate` and of `+` name the former, so as written no
     component passes them. The members below model that; the rest of the model reads
     the two classes as one, as the class's documentation intends. */

  /** `validate` as written: the count check runs, and then the first component, which is
      never an instance of the local class, fails `assert isinstance(...)`. */
  function ValidateAsWritten(r: Response): (res: Outcome)
    ensures |r.components| > MaxComponents ==> res == Failure(ValueError(TooManyComponents))
    ensures 0 < |r.components| <= MaxComponents ==> res == Failure(AssertionError)
    ensures |r.components| == 0 ==> res == Validate(r)
  {
    if |r.components| > MaxComponents then Failure(ValueError(TooManyComponents))
    else if |r.components| > 0 then Failure(AssertionError)
    else Validate(r)
  }

  /** `render` as written: it validates first, so only a response without components
      gets past it, and from there it renders as `Render` does. */
  function RenderAsWritten(r: Response): (res: Result<Dict, Error>)
    ensures |r.components| > 0 ==> res.Failure?
    ensures |r.components| == 0 ==> res == Render(r)
  {
    match ValidateAsWritten(r)
    case Failure(e) => Failure(e)
    case Success(_) => Render(r)
  }

  /** Every valid response holding a component fails validation and rendering as
      written. */
  lemma ValidComponentRefusedAsWritten(r: Response)
    requires Valid(r) && |r.components| > 0
    ensures Validate(r).Success? && ValidateAsWritten(r) == Failure(AssertionError)
    ensures RenderAsWritten(r) == Failure(AssertionError)
  {
  }

  /** `KakaoResponse(component)` followed by `validate()`, as written: a single component
      fails the constructor's `isinstance`, so it is stored bare and `len()` of it raises
      TypeError; otherwise the constructed response validates as written. */
  function ValidateNewAsWritten(components: ListArg<Component>, quickReplies: ListArg<QuickReply>,
                                contexts: Option<seq<Ref<Context>>>, data: Value): (res: Outcome)
    ensures components.Single? ==> res == Failure(TypeError)
    ensures !components.Single? ==> res == ValidateAsWritten(NewResponse(components, quickReplies, contexts, data))
  {
    if components.Single? then Failure(TypeError)
    else ValidateAsWritten(NewResponse(components, quickReplies, contexts, data))
  }

  /** A single valid component: the intended constructor wraps it and the response
      validates, while as written validation raises TypeError. */
  lemma SingleComponentRefusedAsWritten()
    ensures var r := NewResponse(Single(Components.SimpleTextComponent(VStr("학식"))), NotGiven, None, VNone);
      Validate(r).Success? && r.components == [Inst(Components.SimpleTextComponent(VStr("학식")))]
    ensures ValidateNewAsWritten(Single(Components.SimpleTextComponent(VStr("학식"))), NotGiven, None, VNone)
            == Failure(TypeError)
  {
    var c := Components.SimpleTextComponent(VStr("학식"));
    var r := NewResponse(Single(c), NotGiven, None, VNone);
    assert Components.Validate(c).Success?;
    assert Validates(r.components[0], Components.Validate);
    assert Valid(r);
  }

  /** A rendered response starts with version "2.0", has a template exactly when it has
      a component or a quick reply, never has a context, and has data exactly when the
      data is truthy. */
  lemma RenderFields(r: Response)
    requires Render(r).Success?
    ensures var d := Render(r).value;
      && d[0] == ("version", VStr("2.0"))
      && (HasKey(d, "template") <==> |r.components| > 0 || |r.quickReplies| > 0)
      && !HasKey(d, "context")
      && Get(d, "data") == if Truthy(r.data) then Some(r.data) else None
  {
    var outputs := RenderEach(r.components, Output).value;
    var replies := RenderEach(r.quickReplies, Replies.RenderQuickReply).value;
    assert Render(r) == Success(Assemble(outputs, replies, VNone, r.data));
  }

  /** The "template" dict of a rendered response ({} when there is none). */
  function TemplateOf(d: Dict): Dict {
    match Get(d, "template")
    case Some(VDict(t)) => t
    case _ => []
  }

  /** The list under `key` ([] when there is none). */
  function ListAt(d: Dict, key: string): seq<Value> {
    match Get(d, key)
    case Some(VList(xs)) => xs
    case _ => []
  }

  /** A successful render assembles the rendered components and quick replies. */
  lemma RenderAssembles(r: Response)
    requires Render(r).Success?
    ensures RenderEach(r.components, Output).Success? && RenderEach(r.quickReplies, Replies.RenderQuickReply).Success?
    ensures Render(r).value == Assemble(RenderEach(r.components, Output).value,
                                        RenderEach(r.quickReplies, Replies.RenderQuickReply).value, VNone, r.data)
  {
  }

  /** Where the rendered lists sit in an assembled envelope. */
  lemma TemplateParts(outputs: seq<Value>, replies: seq<Value>, data: Value, d: Dict)
    requires d == Assemble(outputs, replies, VNone, data)
    ensures ListAt(TemplateOf(d), "outputs") == outputs
    ensures ListAt(TemplateOf(d), "quickReplies") == replies
  {
  }

  /** The "outputs" of a rendered response: one `{name: rendered}` dict per component,
      in order, keyed by the component's template name (see `Output`). */
  lemma RenderOutputs(r: Response)
    requires Render(r).Success?
    ensures var outs := ListAt(TemplateOf(Render(r).value), "outputs");
      && |outs| == |r.components|
      && forall i | 0 <= i < |r.components| :: r.components[i].Inst? && outs[i] == VDict(Output(r.components[i].obj).value)
  {
    RenderAssembles(r);
    TemplateParts(RenderEach(r.components, Output).value, RenderEach(r.quickReplies, Replies.RenderQuickReply).value,
                  r.data, Render(r).value);
  }

  /** The "quickReplies" of a rendered response: each quick reply rendered, in order. */
  lemma RenderQuickReplies(r: Response)
    requires Render(r).Success?
    ensures var qs := ListAt(TemplateOf(Render(r).value), "quickReplies");
      && |qs| == |r.quickReplies|
      && forall i | 0 <= i < |r.quickReplies| ::
           r.quickReplies[i].Inst? && qs[i] == VDict(Replies.RenderQuickReply(r.quickReplies[i].obj).value)
  {
    RenderAssembles(r);
    TemplateParts(RenderEach(r.components, Output).value, RenderEach(r.quickReplies, Replies.RenderQuickReply).value,
                  r.data, Render(r).value);
  }

  // --------------------------------------------------------------- adding

  /** `add_component(component)`: appended unchecked; the count is only checked by
      `validate`. */
  function AddComponent(r: Response, c: Ref<Component>): (r': Response)
    ensures |r'.components| == |r.components| + 1 && r'.components[|r.components|] == c
    ensures r'.components[..|r.components|] == r.components
    ensures r'.quickReplies == r.quickReplies && r'.contexts == r.contexts && r'.data == r.data
  {
    r.(components := r.components + [c])
  }

  /** A fourth component is accepted by `add_component` and refused by `validate`. */
  lemma FourthComponentRefused(r: Response, c: Ref<Component>)
    requires |r.components| == MaxComponents
    ensures Validate(AddComponent(r, c)) == Failure(ValueError(TooManyComponents))
  {
  }

  /** An argument of `add_quick_reply` or `add_context`: a quick reply, a context, an
      `ActionEnum` member, or any other value (other objects are `VObject`). */
  datatype Arg = QuickReplyArg(q: QuickReply) | ContextArg(c: Context) | MemberArg(kind: Interaction.ActionKind) | ValueArg(v: Value)
  {
    /** The argument stored as a plain attribute. */
    function AsValue(): Value {
      if ValueArg? then v else VObject
    }

    /** The argument given as `action`. */
    function AsAction(): Interaction.ActionArg {
      match this
      case MemberArg(kind) => Interaction.ByMember(kind)
      case ValueArg(v) => Interaction.ByValue(v)
      case _ => Interaction.ByValue(VObject)
    }
  }

  const QuickReplyWithOthers := "QuickReply 객체와 함께 다른 인자를 주면 안 됩니다."
  const QuickReplyKeywordType := "quick_reply 키워드는 QuickReply 객체만 받아야 합니다."
  const ContextWithOthers := "Context 객체와 함께 다른 인자를 주면 안 됩니다."
  const ContextKeywordType := "context 키워드는 Context 객체만 받아야 합니다."

  /** The parameters of `QuickReply.__init__`; only `label` has no default. */
  const QuickReplyParams: seq<string> := ["label", "action", "message_text", "block_id", "extra"]
  const QuickReplyDefaults: seq<Arg> := [ValueArg(VNone), ValueArg(VStr("Message")), ValueArg(VNone), ValueArg(VNone), ValueArg(VNone)]

  /** `QuickReply(*args, **kwargs)`: TypeError when the arguments do not bind, otherwise
      the constructor. */
  function QuickReplyOf(call: Call<Arg>): (r: Result<QuickReply, Error>)
    ensures !Binds(QuickReplyParams, 1, call) ==> r == Failure(TypeError)
    ensures Binds(QuickReplyParams, 1, call) ==> r == Replies.NewQuickReply(
      BoundArg(QuickReplyParams, 1, QuickReplyDefaults, call, 0).AsValue(),
      BoundArg(QuickReplyParams, 1, QuickReplyDefaults, call, 1).AsAction(),
      BoundArg(QuickReplyParams, 1, QuickReplyDefaults, call, 2).AsValue(),
      BoundArg(QuickReplyParams, 1, QuickReplyDefaults, call, 3).AsValue(),
      BoundArg(QuickReplyParams, 1, QuickReplyDefaults, call, 4).AsValue())
  {
    if !Binds(QuickReplyParams, 1, call) then Failure(TypeError)
    else
      Replies.NewQuickReply(
        BoundArg(QuickReplyParams, 1, QuickReplyDefaults, call, 0).AsValue(),
        BoundArg(QuickReplyParams, 1, QuickReplyDefaults, call, 1).AsAction(),
        BoundArg(QuickReplyParams, 1, QuickReplyDefaults, call, 2).AsValue(),
        BoundArg(QuickReplyParams, 1, QuickReplyDefaults, call, 3).AsValue(),
        BoundArg(QuickReplyParams, 1, QuickReplyDefaults, call, 4).AsValue())
  }

  /** `add_quick_reply(*args, **kwargs)`: a QuickReply given alone, positionally or as
      `quick_reply=`, is appended; a QuickReply with other arguments, or `quick_reply=`
      holding something else, is a ValueError; anything else goes to the QuickReply
      constructor, whose result is appended. */
  function AddQuickReply(r: Response, call: Call<Arg>): (res: Result<Response, Error>)
    ensures res.Success? ==> res.value.components == r.components && res.value.contexts == r.contexts
                              && res.value.data == r.data
    ensures res.Success? ==> |res.value.quickReplies| == |r.quickReplies| + 1
                              && res.value.quickReplies[..|r.quickReplies|] == r.quickReplies
                              && res.value.quickReplies[|r.quickReplies|].Inst?
    ensures |call.args| > 0 && call.args[0].QuickReplyArg? ==>
      res == if |call.args| > 1 || |call.kwargs| > 0 then Failure(ValueError(QuickReplyWithOthers))
             else Success(r.(quickReplies := r.quickReplies + [Inst(call.args[0].q)]))
    ensures |call.args| == 0 && |call.kwargs| == 1 && call.kwargs[0].0 == "quick_reply" ==>
      res == if call.kwargs[0].1.QuickReplyArg? then Success(r.(quickReplies := r.quickReplies + [Inst(call.kwargs[0].1.q)]))
             else Failure(ValueError(QuickReplyKeywordType))
    ensures !(|call.args| > 0 && call.args[0].QuickReplyArg?) && !(|call.args| == 0 && HasKw(call.kwargs, "quick_reply") && |call.kwargs| == 1) ==>
      (res.Success? <==> QuickReplyOf(call).Success?) &&
      (res.Success? ==> res.value.quickReplies == r.quickReplies + [Inst(QuickReplyOf(call).value)])
  {
    var q :-
      if |call.args| > 0 && call.args[0].QuickReplyArg? then
        if |call.args| > 1 || |call.kwargs| > 0 then Failure(ValueError(QuickReplyWithOthers))
        else Success(call.args[0].q)
      else if HasKw(call.kwargs, "quick_reply") && |call.kwargs| == 1 && |call.args| == 0 then
        var x := Kw(call.kwargs, "quick_reply");
        if !x.QuickReplyArg? then Failure(ValueError(QuickReplyKeywordType)) else Success(x.q)
      else QuickReplyOf(call);
    Success(r.(quickReplies := r.quickReplies + [Inst(q)]))
  }

  /** A quick reply given positionally or as `quick_reply=` is appended the same way. */
  lemma AddQuickReplyObject(r: Response, q: QuickReply)
    ensures AddQuickReply(r, Call([QuickReplyArg(q)], [])) == Success(r.(quickReplies := r.quickReplies + [Inst(q)]))
    ensures AddQuickReply(r, Call([], [("quick_reply", QuickReplyArg(q))])) == AddQuickReply(r, Call([QuickReplyArg(q)], []))
  {
  }

  /** How `QuickReply(label, message_text=text)` binds its arguments. */
  lemma LabelAndTextBind(call: Call<Arg>, labelText: string, text: string)
    requires call == Call([ValueArg(VStr(labelText))], [("message_text", ValueArg(VStr(text)))])
    ensures Binds(QuickReplyParams, 1, call)
    ensures QuickReplyOf(call) == Replies.NewQuickReply(VStr(labelText), Interaction.ByValue(VStr("Message")), VStr(text), VNone, VNone)
  {
    assert call.kwargs[0].0 in QuickReplyParams[1..];
    assert !HasKw(call.kwargs, "action") && !HasKw(call.kwargs, "block_id") && !HasKw(call.kwargs, "extra");
    assert HasKw(call.kwargs, "message_text");
    var a0 := BoundArg(QuickReplyParams, 1, QuickReplyDefaults, call, 0);
    var a1 := BoundArg(QuickReplyParams, 1, QuickReplyDefaults, call, 1);
    var a2 := BoundArg(QuickReplyParams, 1, QuickReplyDefaults, call, 2);
    var a3 := BoundArg(QuickReplyParams, 1, QuickReplyDefaults, call, 3);
    var a4 := BoundArg(QuickReplyParams, 1, QuickReplyDefaults, call, 4);
    assert a0.AsValue() == VStr(labelText);
    assert a1.AsAction() == Interaction.ByValue(VStr("Message"));
    assert a2.AsValue() == VStr(text);
    assert a3.AsValue() == VNone && a4.AsValue() == VNone;
    assert QuickReplyOf(call) == Replies.NewQuickReply(a0.AsValue(), a1.AsAction(), a2.AsValue(), a3.AsValue(), a4.AsValue());
  }

  /** `add_quick_reply(label, message_text=text)` appends a message quick reply: the
      action defaults to "Message". */
  lemma AddQuickReplyByArguments(r: Response, labelText: string, text: string)
    ensures AddQuickReply(r, Call([ValueArg(VStr(labelText))], [("message_text", ValueArg(VStr(text)))]))
         == Success(r.(quickReplies := r.quickReplies
                         + [Inst(Replies.QuickReply(VStr(labelText), Some(Interaction.Message), VStr(text), VNone, VNone))]))
  {
    var call := Call([ValueArg(VStr(labelText))], [("message_text", ValueArg(VStr(text)))]);
    var q := Replies.QuickReply(VStr(labelText), Some(Interaction.Message), VStr(text), VNone, VNone);
    assert !HasKw(call.kwargs, "quick_reply") by {
      assert call.kwargs[0].0 != "quick_reply";
    }
    assert QuickReplyOf(call) == Success(q) by {
      LabelAndTextBind(call, labelText, text);
      Replies.DefaultActionIsMessage();
    }
  }

  /** An eleventh quick reply is accepted by `add_quick_reply` and refused by `validate`. */
  lemma EleventhQuickReplyRefused(r: Response, q: QuickReply)
    requires |r.components| <= MaxComponents
    requires forall i | 0 <= i < |r.components| :: Validates(r.components[i], Components.Validate)
    requires |r.quickReplies| == MaxQuickReplies
    ensures AddQuickReply(r, Call([QuickReplyArg(q)], [])).Success?
    ensures Validate(AddQuickReply(r, Call([QuickReplyArg(q)], [])).value) == Failure(ValueError(TooManyQuickReplies))
  {
    var r' := AddQuickReply(r, Call([QuickReplyArg(q)], [])).value;
    assert r'.components == r.components;
    assert ValidateEach(r'.components, Components.Validate).Success?;
  }

  /** The defaults of `Context.__init__` (the first two are required). */
  const ContextDefaults: seq<Arg> := [ValueArg(VNone), ValueArg(VNone), ValueArg(VNone), ValueArg(VNone)]

  /** `Context(*args, **kwargs)`: TypeError when the arguments do not bind. */
  function ContextOf(call: Call<Arg>): (r: Result<Context, Error>)
    ensures r.Success? <==> Binds(KakaoContext.Params, 2, call)
    ensures r.Failure? ==> r.error == TypeError
    ensures r.Success? ==> forall i | 0 <= i < 4 ::
      KakaoContext.Field(r.value, KakaoContext.Params[i]) == BoundArg(KakaoContext.Params, 2, ContextDefaults, call, i).AsValue()
  {
    if !Binds(KakaoContext.Params, 2, call) then Failure(TypeError)
    else
      var arg := (i: nat) requires i < 4 => BoundArg(KakaoContext.Params, 2, ContextDefaults, call, i).AsValue();
      Success(KakaoContext.Context(arg(0), arg(1), arg(2), arg(3)))
  }

  /** `add_context(*args, **kwargs)`: the same three forms as `add_quick_reply`, for
      contexts. */
  function AddContext(r: Response, call: Call<Arg>): (res: Result<Response, Error>)
    ensures res.Success? ==> res.value.components == r.components && res.value.quickReplies == r.quickReplies
                              && res.value.data == r.data
    ensures res.Success? ==> |res.value.contexts| == |r.contexts| + 1
                              && res.value.contexts[..|r.contexts|] == r.contexts
                              && res.value.contexts[|r.contexts|].Inst?
    ensures |call.args| > 0 && call.args[0].ContextArg? ==>
      res == if |call.args| > 1 || |call.kwargs| > 0 then Failure(ValueError(ContextWithOthers))
             else Success(r.(contexts := r.contexts + [Inst(call.args[0].c)]))
    ensures |call.args| == 0 && |call.kwargs| == 1 && call.kwargs[0].0 == "context" ==>
      res == if call.kwargs[0].1.ContextArg? then Success(r.(contexts := r.contexts + [Inst(call.kwargs[0].1.c)]))
             else Failure(ValueError(ContextKeywordType))
    ensures !(|call.args| > 0 && call.args[0].ContextArg?) && !(|call.args| == 0 && HasKw(call.kwargs, "context") && |call.kwargs| == 1) ==>
      (res.Success? <==> Binds(KakaoContext.Params, 2, call)) &&
      (res.Failure? ==> res.error == TypeError) &&
      (res.Success? ==> res.value.contexts == r.contexts + [Inst(ContextOf(call).value)])
  {
    var c :-
      if |call.args| > 0 && call.args[0].ContextArg? then
        if |call.args| > 1 || |call.kwargs| > 0 then Failure(ValueError(ContextWithOthers))
        else Success(call.args[0].c)
      else if HasKw(call.kwargs, "context") && |call.kwargs| == 1 && |call.args| == 0 then
        var x := Kw(call.kwargs, "context");
        if !x.ContextArg? then Failure(ValueError(ContextKeywordType)) else Success(x.c)
      else ContextOf(call);
    Success(r.(contexts := r.contexts + [Inst(c)]))
  }

  /** Whatever context is added, the response no longer validates. */
  lemma AddedContextNeverValidates(r: Response, call: Call<Arg>)
    requires AddContext(r, call).Success?
    ensures Validate(AddContext(r, call).value).Failure?
  {
    NoContextValidates(AddContext(r, call).value.contexts);
  }

  // -------------------------------------------------------------- operator

  /** The right operand of `response + other`. */
  datatype Operand =
    | QuickReplyOperand(q: QuickReply)
    | ComponentOperand(c: Component)
    | ResponseOperand(other: Response)
    | ContextOperand(ctx: Context)
    | OtherOperand(v: Value)

  /** `KakaoResponse.__add__`: a quick reply, a component or a context is appended to its
      list; another response contributes its components and its quick replies (its
      contexts and data are dropped); anything else leaves the response as it is. */
  function Add(r: Response, other: Operand): (r': Response)
    ensures other.QuickReplyOperand? ==> Success(r') == AddQuickReply(r, Call([QuickReplyArg(other.q)], []))
    ensures other.ComponentOperand? ==> r' == AddComponent(r, Inst(other.c))
    ensures other.ContextOperand? ==> Success(r') == AddContext(r, Call([ContextArg(other.ctx)], []))
    ensures other.ResponseOperand? ==>
      && r'.components == r.components + other.other.components
      && r'.quickReplies == r.quickReplies + other.other.quickReplies
      && r'.contexts == r.contexts && r'.data == r.data
    ensures other.OtherOperand? ==> r' == r
  {
    match other
    case QuickReplyOperand(q) => r.(quickReplies := r.quickReplies + [Inst(q)])
    case ComponentOperand(c) => r.(components := r.components + [Inst(c)])
    case ResponseOperand(o) =>
      var withComponents := r.(components := r.components + o.components);
      if |o.quickReplies| > 0 then withComponents.(quickReplies := r.quickReplies + o.quickReplies)
      else
        assert r.quickReplies + o.quickReplies == r.quickReplies;
        withComponents
    case ContextOperand(ctx) => r.(contexts := r.contexts + [Inst(ctx)])
    case OtherOperand(_) => r
  }

  /** `+` as written: a component fails `isinstance(other, ParentComponent)` against the
      local class, so adding one changes nothing; every other operand is added as `Add`
      does. */
  function AddAsWritten(r: Response, other: Operand): (r': Response)
    ensures other.ComponentOperand? ==> r' == r
    ensures !other.ComponentOperand? ==> r' == Add(r, other)
  {
    if other.ComponentOperand? then r else Add(r, other)
  }

  /** `response + component` as written leaves the response as it was, where the
      intended `+` appends the component. */
  lemma AddComponentIgnoredAsWritten(r: Response, c: Component)
    ensures AddAsWritten(r, ComponentOperand(c)) == r
    ensures Add(r, ComponentOperand(c)) != r && Add(r, ComponentOperand(c)).components == r.components + [Inst(c)]
  {
    assert |Add(r, ComponentOperand(c)).components| == |r.components| + 1;
  }

  /** Adding responses is associative: `(a + b) + c` and `a + (b + c)` agree as values.
      In Python `a + (b + c)` also extends `b` in place, which this does not show. */
  lemma AddResponsesAssociative(a: Response, b: Response, c: Response)
    ensures Add(Add(a, ResponseOperand(b)), ResponseOperand(c)) == Add(a, ResponseOperand(Add(b, ResponseOperand(c))))
  {
    assert (a.components + b.components) + c.components == a.components + (b.components + c.components);
    assert (a.quickReplies + b.quickReplies) + c.quickReplies == a.quickReplies + (b.quickReplies + c.quickReplies);
  }

  /** An empty response is a right identity of `+`. */
  lemma AddEmptyResponse(a: Response)
    ensures Add(a, ResponseOperand(Empty)) == a
  {
  }
}
