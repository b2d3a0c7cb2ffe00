/** The context a request carries and a response sets (kakao/context.py): a name, the
    number of turns it stays alive, a time to live and extra parameters. The same
    shape is read from a payload with `from_dict` and written into a response with
    `render`. */
module KakaoContext {
  import opened Wrappers
  import opened Errors
  import opened PyValue
  import opened KakaoBase
  import opened Validation

  /** The constructor stores its arguments unchecked, so each field is any value. */
  datatype Context = Context(name: Value, lifespan: Value, ttl: Value, params: Value)

  /** The constructor's parameters, which are also the wire keys. */
  const Params: seq<string> := ["name", "lifespan", "ttl", "params"]

  /** The attribute a parameter sets. */
  function Field(c: Context, key: string): Value
    requires key in Params
  {
    if key == "name" then c.name
    else if key == "lifespan" then c.lifespan
    else if key == "ttl" then c.ttl
    else c.params
  }

  /** `Context.from_dict(data)`, which is `Context(**data)`: every key must name a
      parameter and `name` and `lifespan` must be given (TypeError otherwise); `ttl` and
      `params` default to None. */
  function FromDict(data: Dict): (r: Result<Context, Error>)
    ensures r.Success? <==>
      HasKey(data, "name") && HasKey(data, "lifespan") && forall i | 0 <= i < |data| :: data[i].0 in Params
    ensures r.Failure? ==> r.error == TypeError
    ensures r.Success? ==> forall key | key in Params :: Field(r.value, key) == GetOr(data, key, VNone)
  {
    if HasKey(data, "name") && HasKey(data, "lifespan") && forall i | 0 <= i < |data| :: data[i].0 in Params then
      Success(Context(Get(data, "name").value, Get(data, "lifespan").value,
                      GetOr(data, "ttl", VNone), GetOr(data, "params", VNone)))
    else Failure(TypeError)
  }

  /** The four entries `render` starts from, in order. */
  function Entries(c: Context): (base: Dict)
    ensures UniqueKeys(base)
    ensures forall key :: Get(base, key) == if key in Params then Some(Field(c, key)) else None
  {
    var base := [("name", c.name), ("lifespan", c.lifespan), ("ttl", c.ttl), ("params", c.params)];
    assert forall key :: Get(base, key) == if key in Params then Some(Field(c, key)) else None by {
      forall key ensures Get(base, key) == if key in Params then Some(Field(c, key)) else None {
        var b1 := [("lifespan", c.lifespan), ("ttl", c.ttl), ("params", c.params)];
        var b2 := [("ttl", c.ttl), ("params", c.params)];
        var b3 := [("params", c.params)];
        assert base[1..] == b1 && b1[1..] == b2 && b2[1..] == b3 && b3[1..] == [];
        assert Get(b3, key) == if key == "params" then Some(c.params) else None;
        assert Get(b2, key) == if key == "ttl" then Some(c.ttl) else Get(b3, key);
        assert Get(b1, key) == if key == "lifespan" then Some(c.lifespan) else Get(b2, key);
        assert key in Params <==> key == "name" || key == "lifespan" || key == "ttl" || key == "params";
      }
    }
    base
  }

  /** What the rendered dict holds under `key`: the attribute of that name, unless it is
      None. */
  function Shown(c: Context, key: string): Option<Value> {
    if key in Params && !Field(c, key).VNone? then Some(Field(c, key)) else None
  }

  /** `Context.render()`: every attribute under its parameter's name, except those
      that are None. It does not validate, so it returns for every context. */
  function Render(c: Context): (r: Dict)
    ensures forall key :: Get(r, key) == Shown(c, key)
    ensures forall i | 0 <= i < |r| :: r[i].0 in Params && !r[i].1.VNone?
    ensures UniqueKeys(r)
  {
    var base := Entries(c);
    assert forall key :: Get(RemoveNone(base), key) == Shown(c, key) by {
      forall key {
        StrippedGet(base, key);
      }
    }
    assert forall i | 0 <= i < |RemoveNone(base)| :: RemoveNone(base)[i].0 in Params by {
      forall i | 0 <= i < |RemoveNone(base)| ensures RemoveNone(base)[i].0 in Params {
        assert RemoveNone(base)[i] in base;
      }
    }
    RemoveNoneKeys(base);
    RemoveNone(base)
  }

  /** `Context.validate()` raises InvalidTypeError for every context: `validate_type(dict,
      self)` is handed the context itself, which is no dict, and before that a lifespan
      that is an int already fails `validate_str`. */
  function Validate(c: Context): (r: Outcome)
    ensures r == Failure(InvalidTypeError)
  {
    var _ :- ValidateStr([c.name, c.lifespan, c.ttl], false);
    ValidateValues([DictType], [VObject], false, InvalidTypeError)
  }

  /** Reading a payload context and rendering it gives back the same dict, as long as
      none of its values is None. */
  lemma RenderFromDict(data: Dict)
    requires FromDict(data).Success?
    requires forall i | 0 <= i < |data| :: !data[i].1.VNone?
    ensures SameDict(Render(FromDict(data).value), data)
  {
    var c := FromDict(data).value;
    forall key ensures Get(Render(c), key) == Get(data, key) {
      if Get(data, key).Some? {
        var i :| 0 <= i < |data| && data[i] == (key, Get(data, key).value);
      }
    }
  }

  /** Rendering a context and reading it back gives the same context, as long as its
      required name and lifespan are set. */
  lemma FromDictRender(c: Context)
    requires !c.name.VNone? && !c.lifespan.VNone?
    ensures FromDict(Render(c)) == Success(c)
  {
    var r := Render(c);
    assert Get(r, "name").Some? && Get(r, "lifespan").Some?;
    assert Field(FromDict(r).value, "ttl") == c.ttl;
    assert Field(FromDict(r).value, "params") == c.params;
  }
}
