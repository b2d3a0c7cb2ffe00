/** The request a skill receives (kakao/input.py): the JSON payload the bot system
    posts, read into `Payload` and the objects it holds with each class's `from_dict`.
    Missing fields take defaults; only a missing `action.clientExtra`, a value of the
    wrong shape, or keyword arguments that do not bind raise. */
module KakaoInput {
  import opened Wrappers
  import opened Errors
  import opened PyValue
  import KakaoContext

  /** `for x in v`: a list yields its items, a dict its keys, a str its characters; any
      other value is not iterable. */
  function Iterate(v: Value): (r: Result<seq<Value>, Error>)
    ensures r.Success? <==> v.VList? || v.VDict? || v.VStr?
    ensures r.Failure? ==> r.error == TypeError
    ensures v.VList? ==> r == Success(v.items)
    ensures v.VDict? ==> r.Success? && |r.value| == |v.entries| && forall i | 0 <= i < |v.entries| :: r.value[i] == VStr(v.entries[i].0)
    ensures v.VStr? ==> r.Success? && |r.value| == |v.s| && forall i | 0 <= i < |v.s| :: r.value[i] == VStr([v.s[i]])
  {
    match v
    case VList(items) => Success(items)
    case VDict(entries) => Success(seq(|entries|, i requires 0 <= i < |entries| => VStr(entries[i].0)))
    case VStr(s) => Success(seq(|s|, i requires 0 <= i < |s| => VStr([s[i]])))
    case _ => Failure(TypeError)
  }

  /** `[parse(x) for x in xs]`: every element parsed in order, or the exception of the
      first one that raises. */
  function ParseEach<T>(xs: seq<Value>, parse: Value -> Result<T, Error>): (r: Result<seq<T>, Error>)
    ensures r.Success? <==> forall i | 0 <= i < |xs| :: parse(xs[i]).Success?
    ensures r.Success? ==> |r.value| == |xs| && forall i | 0 <= i < |xs| :: r.value[i] == parse(xs[i]).value
    ensures r.Failure? ==> exists i | 0 <= i < |xs| ::
      && (forall j | 0 <= j < i :: parse(xs[j]).Success?)
      && parse(xs[i]) == Failure(r.error)
    decreases |xs|
  {
    if |xs| == 0 then Success([])
    else
      var x :- parse(xs[0]);
      var rest := ParseEach(xs[1..], parse);
      assert forall i | 1 <= i < |xs| :: xs[i] == xs[1..][i - 1];
      if rest.Failure? then Failure(rest.error)
      else Success([x] + rest.value)
  }

  const Empty: Value := VStr("")
  const NoEntries: Value := VDict([])

  // -------------------------------------------------------------- Param

  /** A parameter from `detailParams`: its origin, value and group name, plus the
      attributes that extra keyword arguments set, in order. */
  datatype Param = Param(origin: Value, value: Value, groupName: Value, extras: Dict)

  /** The parameters of `Param.__init__` other than `value` and `**kwargs`: an
      argument spread from the value dict must not name one of them again. */
  const Bound: seq<string> := ["self", "origin", "group_name"]

  /** The entries of `d` whose key is not `key`, in order. */
  function Without(d: Dict, key: string): (r: Dict)
    ensures forall e :: e in r <==> e in d && e.0 != key
    ensures |r| <= |d|
  {
    if |d| == 0 then []
    else if d[0].0 == key then Without(d[1..], key)
    else [d[0]] + Without(d[1..], key)
  }

  /** `cls(origin=origin, group_name=group_name, **spread)`: TypeError unless `spread`
      supplies `value` and repeats no bound parameter; its other entries become
      attributes. */
  function SpreadParam(origin: Value, groupName: Value, spread: Dict): (r: Result<Param, Error>)
    ensures r.Success? <==> HasKey(spread, "value") && forall k | k in Bound :: !HasKey(spread, k)
    ensures r.Failure? ==> r.error == TypeError
    ensures r.Success? ==> r.value == Param(origin, Get(spread, "value").value, groupName, Without(spread, "value"))
  {
    if HasKey(spread, "value") && forall k | k in Bound :: !HasKey(spread, k) then
      Success(Param(origin, Get(spread, "value").value, groupName, Without(spread, "value")))
    else Failure(TypeError)
  }

  /** `Param.from_dict`: origin, value and group name each default to ''. A dict value
      is spread into the constructor, so the Param's value is the dict's own 'value'
      entry. (The `except KeyError` around it never fires: nothing in it raises
      KeyError.) */
  function ParamFromDict(data: Value): (r: Result<Param, Error>)
    ensures !data.VDict? ==> r == Failure(AttributeError)
    ensures data.VDict? && !GetOr(data.entries, "value", Empty).VDict? ==>
      r == Success(Param(GetOr(data.entries, "origin", Empty), GetOr(data.entries, "value", Empty),
                         GetOr(data.entries, "groupName", Empty), []))
    ensures data.VDict? && GetOr(data.entries, "value", Empty).VDict? ==>
      r == SpreadParam(GetOr(data.entries, "origin", Empty), GetOr(data.entries, "groupName", Empty),
                       GetOr(data.entries, "value", Empty).entries)
  {
    if !data.VDict? then Failure(AttributeError)
    else
      var d := data.entries;
      var value := GetOr(d, "value", Empty);
      if value.VDict? then SpreadParam(GetOr(d, "origin", Empty), GetOr(d, "groupName", Empty), value.entries)
      else Success(Param(GetOr(d, "origin", Empty), value, GetOr(d, "groupName", Empty), []))
  }

  /** The `detailParams` entry a Param with no extra attributes and a non-dict value
      came from. */
  function ParamToDict(p: Param): Dict {
    [("origin", p.origin), ("value", p.value), ("groupName", p.groupName)]
  }

  /** Reading back the entry of a plain Param gives the same Param. */
  lemma ParamRoundTrip(p: Param)
    requires p.extras == [] && !p.value.VDict?
    ensures ParamFromDict(VDict(ParamToDict(p))) == Success(p)
  {
    var d := ParamToDict(p);
    assert d[1..] == [("value", p.value), ("groupName", p.groupName)];
    assert d[1..][1..] == [("groupName", p.groupName)];
    assert GetOr(d, "origin", Empty) == p.origin;
    assert Get(d, "value") == Get(d[1..], "value") == Some(p.value);
    assert Get(d, "groupName") == Get(d[1..], "groupName") == Get(d[1..][1..], "groupName") == Some(p.groupName);
  }

  /** A dict value spreads: its 'value' entry becomes the Param's value and the rest
      become attributes, as long as no other key is a bound parameter. */
  lemma ParamSpread(origin: Value, groupName: Value, v: Value, extras: Dict)
    requires forall i | 0 <= i < |extras| :: extras[i].0 != "value" && extras[i].0 !in Bound
    ensures SpreadParam(origin, groupName, [("value", v)] + extras) == Success(Param(origin, v, groupName, extras))
  {
    var spread := [("value", v)] + extras;
    assert spread[0].0 == "value";
    forall k, i | k in Bound && 0 <= i < |spread| ensures spread[i].0 != k {
      if i > 0 {
        assert spread[i] == extras[i - 1];
      }
    }
    WithoutHead(v, extras);
  }

  lemma WithoutHead(v: Value, extras: Dict)
    requires forall i | 0 <= i < |extras| :: extras[i].0 != "value"
    ensures Without([("value", v)] + extras, "value") == extras
  {
    assert ([("value", v)] + extras)[1..] == extras;
    WithoutNothing(extras, "value");
  }

  lemma {:induction false} WithoutNothing(d: Dict, key: string)
    requires forall i | 0 <= i < |d| :: d[i].0 != key
    ensures Without(d, key) == d
    decreases |d|
  {
    if |d| > 0 {
      WithoutNothing(d[1..], key);
    }
  }

  // ------------------------------------------------------------- Action

  /** The `action` of a payload: id, name, the raw `params`, the parsed
      `detailParams` by name, and `clientExtra`. */
  datatype Action = Action(id: Value, name: Value, params: Value, detailParams: seq<(string, Param)>,
                           clientExtra: Value)

  /** `{key: Param.from_dict(value) for key, value in detail.items()}`. */
  function ParseDetailParams(entries: Dict): (r: Result<seq<(string, Param)>, Error>)
    ensures r.Success? <==> forall i | 0 <= i < |entries| :: ParamFromDict(entries[i].1).Success?
    ensures r.Success? ==> |r.value| == |entries|
    ensures r.Success? ==> forall i | 0 <= i < |entries| :: r.value[i] == (entries[i].0, ParamFromDict(entries[i].1).value)
    ensures r.Failure? ==> exists i | 0 <= i < |entries| :: ParamFromDict(entries[i].1) == Failure(r.error)
    decreases |entries|
  {
    if |entries| == 0 then Success([])
    else
      match ParamFromDict(entries[0].1)
      case Failure(e) => Failure(e)
      case Success(p) =>
        assert forall j | 0 <= j < |entries| - 1 :: entries[1..][j] == entries[j + 1];
        match ParseDetailParams(entries[1..])
        case Failure(e) => Failure(e)
        case Success(rest) => Success([(entries[0].0, p)] + rest)
  }

  /** `Action.from_dict`: id and name default to '', params to {}, detailParams to {}
      (each entry parsed as a Param); a missing `clientExtra` raises KeyError. */
  function ActionFromDict(data: Value): (r: Result<Action, Error>)
    ensures !data.VDict? ==> r == Failure(AttributeError)
    ensures data.VDict? && !GetOr(data.entries, "detailParams", NoEntries).VDict? ==> r == Failure(AttributeError)
    ensures r.Success? ==> HasKey(data.entries, "clientExtra")
    ensures r.Success? ==> r.value.clientExtra == Get(data.entries, "clientExtra").value
    ensures r.Success? ==> r.value.id == GetOr(data.entries, "id", Empty) && r.value.name == GetOr(data.entries, "name", Empty)
    ensures r.Success? ==> r.value.params == GetOr(data.entries, "params", NoEntries)
    ensures data.VDict? && GetOr(data.entries, "detailParams", NoEntries).VDict?
            && ParseDetailParams(GetOr(data.entries, "detailParams", NoEntries).entries).Success? ==>
      (r.Success? <==> HasKey(data.entries, "clientExtra")) && (r.Failure? ==> r.error == KeyError)
    ensures data.VDict? && GetOr(data.entries, "detailParams", NoEntries).VDict?
            && ParseDetailParams(GetOr(data.entries, "detailParams", NoEntries).entries).Failure? ==>
      r == Failure(ParseDetailParams(GetOr(data.entries, "detailParams", NoEntries).entries).error)
    ensures r.Success? ==> GetOr(data.entries, "detailParams", NoEntries).VDict?
                           && ParseDetailParams(GetOr(data.entries, "detailParams", NoEntries).entries)
                              == Success(r.value.detailParams)
  {
    if !data.VDict? then Failure(AttributeError)
    else
      var d := data.entries;
      var detail := GetOr(d, "detailParams", NoEntries);
      if !detail.VDict? then Failure(AttributeError)
      else
        var detailParams :- ParseDetailParams(detail.entries);
        match Get(d, "clientExtra")
        case None => Failure(KeyError)
        case Some(extra) =>
          Success(Action(GetOr(d, "id", Empty), GetOr(d, "name", Empty), GetOr(d, "params", NoEntries), detailParams, extra))
  }

  // ------------------------------------------------ Bot, Intent, Knowledge

  datatype Bot = Bot(id: Value, name: Value)

  /** `Bot.from_dict`: id and name default to ''. */
  function BotFromDict(data: Value): (r: Result<Bot, Error>)
    ensures r.Success? <==> data.VDict?
    ensures r.Failure? ==> r.error == AttributeError
    ensures r.Success? ==> r.value == Bot(GetOr(data.entries, "id", Empty), GetOr(data.entries, "name", Empty))
  {
    if !data.VDict? then Failure(AttributeError)
    else Success(Bot(GetOr(data.entries, "id", Empty), GetOr(data.entries, "name", Empty)))
  }

  datatype Knowledge = Knowledge(answer: Value, question: Value, categories: Value, landingUrl: Value, imageUrl: Value)

  /** `Knowledge.from_dict`: the texts default to '' and the categories to []. */
  function KnowledgeFromDict(data: Value): (r: Result<Knowledge, Error>)
    ensures r.Success? <==> data.VDict?
    ensures r.Failure? ==> r.error == AttributeError
    ensures r.Success? ==> r.value.answer == GetOr(data.entries, "answer", Empty)
                           && r.value.question == GetOr(data.entries, "question", Empty)
                           && r.value.categories == GetOr(data.entries, "categories", VList([]))
                           && r.value.landingUrl == GetOr(data.entries, "landingUrl", Empty)
                           && r.value.imageUrl == GetOr(data.entries, "imageUrl", Empty)
  {
    if !data.VDict? then Failure(AttributeError)
    else
      var d := data.entries;
      Success(Knowledge(GetOr(d, "answer", Empty), GetOr(d, "question", Empty), GetOr(d, "categories", VList([])),
                        GetOr(d, "landingUrl", Empty), GetOr(d, "imageUrl", Empty)))
  }

  datatype IntentExtra = IntentExtra(reason: Value, matchedKnowledges: seq<Knowledge>)

  /** `IntentExtra.from_dict`: `reason` defaults to {} (and None becomes {}), and each
      element of `matched_knowledges` (default {}) is parsed as a Knowledge. Iterating
      a dict yields its keys, which are no dicts, so only a list of dicts or an empty
      container parses. */
  function IntentExtraFromDict(data: Value): (r: Result<IntentExtra, Error>)
    ensures !data.VDict? ==> r == Failure(AttributeError)
    ensures r.Success? ==> var reason := GetOr(data.entries, "reason", NoEntries);
      r.value.reason == if reason.VNone? then NoEntries else reason
    ensures r.Success? ==>
      var ks := GetOr(data.entries, "matched_knowledges", NoEntries);
      (ks.VList? || ks.VDict? || ks.VStr?) && |r.value.matchedKnowledges| == |Iterate(ks).value|
    ensures data.VDict? && !HasKey(data.entries, "matched_knowledges") ==> r.Success? && r.value.matchedKnowledges == []
    ensures data.VDict? ==>
      var ks := GetOr(data.entries, "matched_knowledges", NoEntries);
      r.Success? <==> Iterate(ks).Success? && ParseEach(Iterate(ks).value, KnowledgeFromDict).Success?
    ensures r.Success? ==>
      var ks := GetOr(data.entries, "matched_knowledges", NoEntries);
      r.value.matchedKnowledges == ParseEach(Iterate(ks).value, KnowledgeFromDict).value
  {
    if !data.VDict? then Failure(AttributeError)
    else
      var reason := GetOr(data.entries, "reason", NoEntries);
      var items :- Iterate(GetOr(data.entries, "matched_knowledges", NoEntries));
      var knowledges :- ParseEach(items, KnowledgeFromDict);
      Success(IntentExtra(if reason.VNone? then NoEntries else reason, knowledges))
  }

  datatype Intent = Intent(id: Value, name: Value, extra: IntentExtra)

  /** `Intent.from_dict`: id and name default to '', extra to {}. */
  function IntentFromDict(data: Value): (r: Result<Intent, Error>)
    ensures !data.VDict? ==> r == Failure(AttributeError)
    ensures r.Success? ==> r.value.id == GetOr(data.entries, "id", Empty) && r.value.name == GetOr(data.entries, "name", Empty)
    ensures data.VDict? ==> r.Success? == IntentExtraFromDict(GetOr(data.entries, "extra", NoEntries)).Success?
    ensures r.Success? ==> r.value.extra == IntentExtraFromDict(GetOr(data.entries, "extra", NoEntries)).value
  {
    if !data.VDict? then Failure(AttributeError)
    else
      var extra :- IntentExtraFromDict(GetOr(data.entries, "extra", NoEntries));
      Success(Intent(GetOr(data.entries, "id", Empty), GetOr(data.entries, "name", Empty), extra))
  }

  // ------------------------------------------------------- User, request

  datatype User = User(id: Value, userType: Value, properties: Value)

  /** `User.from_dict`: id and type default to '', properties to {} (None becomes
      {}). */
  function UserFromDict(data: Value): (r: Result<User, Error>)
    ensures r.Success? <==> data.VDict?
    ensures r.Failure? ==> r.error == AttributeError
    ensures r.Success? ==> r.value.id == GetOr(data.entries, "id", Empty)
                           && r.value.userType == GetOr(data.entries, "type", Empty)
    ensures r.Success? ==> var ps := GetOr(data.entries, "properties", NoEntries);
      r.value.properties == if ps.VNone? then NoEntries else ps
  {
    if !data.VDict? then Failure(AttributeError)
    else
      var properties := GetOr(data.entries, "properties", NoEntries);
      Success(User(GetOr(data.entries, "id", Empty), GetOr(data.entries, "type", Empty),
                   if properties.VNone? then NoEntries else properties))
  }

  datatype UserRequest = UserRequest(timezone: Value, block: Value, utterance: Value, lang: Value, user: User,
                                     params: Value, callbackUrl: Value)

  /** `UserRequest.from_dict`: the texts default to '', block and user to {}, and
      params and callbackUrl to None. */
  function UserRequestFromDict(data: Value): (r: Result<UserRequest, Error>)
    ensures !data.VDict? ==> r == Failure(AttributeError)
    ensures data.VDict? ==> r.Success? == GetOr(data.entries, "user", NoEntries).VDict?
    ensures r.Success? ==> r.value.user == UserFromDict(GetOr(data.entries, "user", NoEntries)).value
    ensures r.Success? ==> r.value.timezone == GetOr(data.entries, "timezone", Empty)
                           && r.value.block == GetOr(data.entries, "block", NoEntries)
                           && r.value.utterance == GetOr(data.entries, "utterance", Empty)
                           && r.value.lang == GetOr(data.entries, "lang", Empty)
    ensures r.Success? ==> r.value.params == GetOr(data.entries, "params", VNone)
                           && r.value.callbackUrl == GetOr(data.entries, "callbackUrl", VNone)
  {
    if !data.VDict? then Failure(AttributeError)
    else
      var d := data.entries;
      var user :- UserFromDict(GetOr(d, "user", NoEntries));
      Success(UserRequest(GetOr(d, "timezone", Empty), GetOr(d, "block", NoEntries), GetOr(d, "utterance", Empty),
                          GetOr(d, "lang", Empty), user, GetOr(d, "params", VNone), GetOr(d, "callbackUrl", VNone)))
  }

  // ------------------------------------------------------------ Payload

  datatype Payload = Payload(intent: Intent, userRequest: UserRequest, bot: Bot, action: Action,
                             contexts: seq<KakaoContext.Context>)

  /** `Context.from_dict(c)`, which is `Context(**c)`: only a dict spreads. */
  function ContextFromValue(c: Value): (r: Result<KakaoContext.Context, Error>)
    ensures !c.VDict? ==> r == Failure(TypeError)
    ensures c.VDict? ==> r == KakaoContext.FromDict(c.entries)
  {
    if c.VDict? then KakaoContext.FromDict(c.entries) else Failure(TypeError)
  }

  /** `Payload.from_dict`: intent, userRequest, bot and action each default to {} and
      are parsed in that order, then each element of `contexts` (default []) is parsed
      as a Context. */
  function PayloadFromDict(data: Dict): (r: Result<Payload, Error>)
    ensures r.Success? ==> IntentFromDict(GetOr(data, "intent", NoEntries)) == Success(r.value.intent)
    ensures r.Success? ==> UserRequestFromDict(GetOr(data, "userRequest", NoEntries)) == Success(r.value.userRequest)
    ensures r.Success? ==> BotFromDict(GetOr(data, "bot", NoEntries)) == Success(r.value.bot)
    ensures r.Success? ==> ActionFromDict(GetOr(data, "action", NoEntries)) == Success(r.value.action)
    ensures !HasKey(data, "contexts") && r.Success? ==> r.value.contexts == []
    ensures r.Success? <==>
      && IntentFromDict(GetOr(data, "intent", NoEntries)).Success?
      && UserRequestFromDict(GetOr(data, "userRequest", NoEntries)).Success?
      && BotFromDict(GetOr(data, "bot", NoEntries)).Success?
      && ActionFromDict(GetOr(data, "action", NoEntries)).Success?
      && Iterate(GetOr(data, "contexts", VList([]))).Success?
      && ParseEach(Iterate(GetOr(data, "contexts", VList([]))).value, ContextFromValue).Success?
    ensures r.Success? ==>
      r.value.contexts == ParseEach(Iterate(GetOr(data, "contexts", VList([]))).value, ContextFromValue).value
  {
    var intent :- IntentFromDict(GetOr(data, "intent", NoEntries));
    var userRequest :- UserRequestFromDict(GetOr(data, "userRequest", NoEntries));
    var bot :- BotFromDict(GetOr(data, "bot", NoEntries));
    var action :- ActionFromDict(GetOr(data, "action", NoEntries));
    var items :- Iterate(GetOr(data, "contexts", VList([])));
    var contexts :- ParseEach(items, ContextFromValue);
    Success(Payload(intent, userRequest, bot, action, contexts))
  }

  /** `Payload.user_id`: the id of the request's user (the attributes it tests for
      always exist once `from_dict` has returned). */
  function UserId(p: Payload): (id: Value)
    ensures id == p.userRequest.user.id
  {
    p.userRequest.user.id
  }

  /** The user id is the request's `user.id` entry, '' when missing. */
  lemma UserIdFromRequest(data: Dict)
    requires PayloadFromDict(data).Success?
    ensures GetOr(data, "userRequest", NoEntries).VDict?
    ensures GetOr(GetOr(data, "userRequest", NoEntries).entries, "user", NoEntries).VDict?
    ensures UserId(PayloadFromDict(data).value) ==
      GetOr(GetOr(GetOr(data, "userRequest", NoEntries).entries, "user", NoEntries).entries, "id", Empty)
  {
  }

  /** `Payload.params`: the action's `params`. */
  function Params(p: Payload): (v: Value)
    ensures v == p.action.params
  {
    p.action.params
  }

  /** `Payload.detail_params`: the action's parsed `detailParams`. */
  function DetailParams(p: Payload): (d: seq<(string, Param)>)
    ensures d == p.action.detailParams
  {
    p.action.detailParams
  }

  /** `Payload.utterance`: what the user said, from the request. */
  function Utterance(p: Payload): (u: Value)
    ensures u == p.userRequest.utterance
  {
    p.userRequest.utterance
  }

  /** The utterance is the request's `utterance` entry ('' when missing), the params the
      action's `params` entry ({} when missing), and the detail params the action's
      `detailParams` entries, each parsed as a Param. */
  lemma AccessorsFromRequest(data: Dict)
    requires PayloadFromDict(data).Success?
    ensures GetOr(data, "userRequest", NoEntries).VDict? && GetOr(data, "action", NoEntries).VDict?
    ensures Utterance(PayloadFromDict(data).value) ==
      GetOr(GetOr(data, "userRequest", NoEntries).entries, "utterance", Empty)
    ensures Params(PayloadFromDict(data).value) ==
      GetOr(GetOr(data, "action", NoEntries).entries, "params", NoEntries)
    ensures GetOr(GetOr(data, "action", NoEntries).entries, "detailParams", NoEntries).VDict?
    ensures DetailParams(PayloadFromDict(data).value) ==
      ParseDetailParams(GetOr(GetOr(data, "action", NoEntries).entries, "detailParams", NoEntries).entries).value
  {
  }

  /** An empty payload raises KeyError: its defaulted action has no `clientExtra`. */
  lemma EmptyPayloadRaises()
    ensures PayloadFromDict([]) == Failure(KeyError)
  {
    assert ActionFromDict(NoEntries) == Failure(KeyError);
  }

  /** The intent, the request and the bot of an empty dict take their defaults. */
  lemma EmptySections()
    ensures IntentFromDict(NoEntries) == Success(Intent(Empty, Empty, IntentExtra(NoEntries, [])))
    ensures UserRequestFromDict(NoEntries) == Success(UserRequest(Empty, NoEntries, Empty, Empty, User(Empty, Empty, NoEntries), VNone, VNone))
    ensures BotFromDict(NoEntries) == Success(Bot(Empty, Empty))
  {
    assert IntentExtraFromDict(NoEntries) == Success(IntentExtra(NoEntries, []));
  }

  /** An action holding only its `clientExtra` takes every other default. */
  lemma MinimalAction(extra: Value)
    ensures ActionFromDict(VDict([("clientExtra", extra)])) == Success(Action(Empty, Empty, NoEntries, [], extra))
  {
    assert Get([("clientExtra", extra)], "clientExtra") == Some(extra);
  }

  /** A payload holding nothing but `action.clientExtra` parses with every default:
      empty strings, empty dicts, None for params and callbackUrl, no contexts. */
  lemma MinimalPayload(extra: Value)
    ensures var p := PayloadFromDict([("action", VDict([("clientExtra", extra)]))]);
      && p.Success?
      && p.value.intent == Intent(Empty, Empty, IntentExtra(NoEntries, []))
      && p.value.userRequest == UserRequest(Empty, NoEntries, Empty, Empty, User(Empty, Empty, NoEntries), VNone, VNone)
      && p.value.bot == Bot(Empty, Empty)
      && p.value.action == Action(Empty, Empty, NoEntries, [], extra)
      && p.value.contexts == []
      && UserId(p.value) == Empty
  {
    var data := [("action", VDict([("clientExtra", extra)]))];
    EmptySections();
    MinimalAction(extra);
    assert GetOr(data, "intent", NoEntries) == NoEntries;
    assert GetOr(data, "userRequest", NoEntries) == NoEntries;
    assert GetOr(data, "bot", NoEntries) == NoEntries;
    assert GetOr(data, "contexts", VList([])) == VList([]);
    assert GetOr(data, "action", NoEntries) == VDict([("clientExtra", extra)]);
  }
}
