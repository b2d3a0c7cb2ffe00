/** Python runtime values as the library sees them: attribute values, the dicts that
    `render()` builds, and the request payloads that `from_dict` reads. A dict is an
    ordered sequence of string-keyed entries, which is also the JSON shape of the wire
    format. */
module PyValue {
  import opened Wrappers

  datatype Value =
    | VNone
    | VBool(b: bool)
    | VInt(i: int)
    | VStr(s: string)
    | VList(items: seq<Value>)
    | VDict(entries: seq<(string, Value)>)
    | VObject   // an instance of one of the library's classes, passed where a plain value goes

  /** A dict in insertion order. */
  type Dict = seq<(string, Value)>

  /** Python's `bool(v)`. */
  predicate Truthy(v: Value) {
    match v
    case VNone => false
    case VBool(b) => b
    case VInt(i) => i != 0
    case VStr(s) => |s| > 0
    case VList(items) => |items| > 0
    case VDict(entries) => |entries| > 0
    case VObject => true   // no class of the library defines __bool__ or __len__
  }

  /** The built-in types an `isinstance` check names. */
  datatype PyType = StrType | IntType | BoolType | DictType | ListType

  /** Python's `isinstance(v, t)`; `bool` is a subclass of `int`. */
  predicate IsInstance(v: Value, t: PyType) {
    match t
    case StrType => v.VStr?
    case IntType => v.VInt? || v.VBool?
    case BoolType => v.VBool?
    case DictType => v.VDict?
    case ListType => v.VList?
  }

  /** The integer an int-typed value stands for; `True` and `False` are 1 and 0. */
  function AsInt(v: Value): int
    requires IsInstance(v, IntType)
  {
    if v.VInt? then v.i else if v.b then 1 else 0
  }

  /** Python's `isinstance(v, types)` for a tuple of types. */
  predicate IsInstanceOfAny(v: Value, types: seq<PyType>) {
    exists t | t in types :: IsInstance(v, t)
  }

  /** An attribute that should hold an instance of `T`: either it does, or it holds
      some other value (None included) that fails `isinstance(_, T)`. */
  datatype Ref<+T> = Inst(obj: T) | Plain(v: Value) {
    predicate IsNone() {
      Plain? && v.VNone?
    }

    /** The attribute value the object becomes when it is passed where a plain value is
        expected. */
    function AsValue(): Value {
      if Inst? then VObject else v
    }
  }

  function Keys(d: Dict): (ks: seq<string>)
    ensures |ks| == |d|
    ensures forall i | 0 <= i < |d| :: ks[i] == d[i].0
  {
    if |d| == 0 then [] else [d[0].0] + Keys(d[1..])
  }

  /** Python's `key in d`. */
  predicate HasKey(d: Dict, key: string) {
    exists i | 0 <= i < |d| :: d[i].0 == key
  }

  /** Python's `d.get(key)`: the value stored under `key`, if any. */
  function Get(d: Dict, key: string): (r: Option<Value>)
    ensures r.Some? <==> HasKey(d, key)
    ensures r.Some? ==> (key, r.value) in d
  {
    if |d| == 0 then None
    else if d[0].0 == key then Some(d[0].1)
    else Get(d[1..], key)
  }

  /** Python's `d.get(key, default)`. */
  function GetOr(d: Dict, key: string, default: Value): Value {
    Get(d, key).GetOr(default)
  }

  /** Python's `a == b` on dicts: the same keys with the same values, whatever the
      insertion order. */
  ghost predicate SameDict(a: Dict, b: Dict) {
    forall key :: Get(a, key) == Get(b, key)
  }

  /** No key occurs twice: the shape of every real Python dict. */
  predicate UniqueKeys(d: Dict) {
    forall i, j | 0 <= i < j < |d| :: d[i].0 != d[j].0
  }

  /** In a dict without repeated keys, each entry is what its key looks up. */
  lemma {:induction false} GetUnique(d: Dict, i: nat)
    requires UniqueKeys(d) && i < |d|
    ensures Get(d, d[i].0) == Some(d[i].1)
    decreases i
  {
    if i > 0 {
      assert d[1..][i - 1] == d[i];
      assert d[0].0 != d[i].0;
      UniqueKeysTail(d);
      GetUnique(d[1..], i - 1);
    }
  }

  /** Python's `d[key] = v`: an existing key keeps its position and gets the new value,
      a new key goes to the end. */
  function Assign(d: Dict, key: string, v: Value): (r: Dict)
    ensures Keys(r) == if HasKey(d, key) then Keys(d) else Keys(d) + [key]
  {
    if |d| == 0 then [(key, v)]
    else if d[0].0 == key then [(key, v)] + d[1..]
    else [d[0]] + Assign(d[1..], key, v)
  }

  /** Python's `d.update(other)`: assign every entry of `other` in its order. */
  function Update(d: Dict, other: Dict): Dict
    decreases |other|
  {
    if |other| == 0 then d
    else Update(Assign(d, other[0].0, other[0].1), other[1..])
  }

  /** After `d[key] = v`, `d.get(key)` is `v`. */
  lemma {:induction false} AssignGet(d: Dict, key: string, v: Value)
    ensures Get(Assign(d, key, v), key) == Some(v)
    decreases |d|
  {
    if |d| > 0 && d[0].0 != key {
      AssignGet(d[1..], key, v);
    }
  }

  /** Assigning a key the dict does not hold appends it. */
  lemma {:induction false} AssignFresh(d: Dict, key: string, v: Value)
    requires !HasKey(d, key)
    ensures Assign(d, key, v) == d + [(key, v)]
    decreases |d|
  {
    if |d| > 0 {
      assert d[0].0 != key;
      forall i | 0 <= i < |d| - 1 ensures d[1..][i].0 != key {
        assert d[1..][i] == d[i + 1];
      }
      AssignFresh(d[1..], key, v);
      assert Assign(d, key, v) == [d[0]] + Assign(d[1..], key, v);
      assert [d[0]] + d[1..] == d;
    }
  }

  /** Two dicts with unique keys and no key in common concatenate to a dict with unique
      keys. */
  lemma UniqueKeysConcat(a: Dict, b: Dict)
    requires UniqueKeys(a) && UniqueKeys(b)
    requires forall x, y | x in a && y in b :: x.0 != y.0
    ensures UniqueKeys(a + b)
  {
    forall i, j | 0 <= i < j < |a + b| ensures (a + b)[i].0 != (a + b)[j].0 {
      if j < |a| {
      } else if i >= |a| {
        assert (a + b)[i] == b[i - |a|] && (a + b)[j] == b[j - |a|];
      } else {
        assert (a + b)[i] in a && (a + b)[j] in b;
      }
    }
  }

  /** A key is in `d + [p]` exactly when it is in `d` or is `p`'s key. */
  lemma HasKeyAppend(d: Dict, p: (string, Value), key: string)
    ensures HasKey(d + [p], key) <==> HasKey(d, key) || p.0 == key
  {
    if HasKey(d, key) {
      var i :| 0 <= i < |d| && d[i].0 == key;
      assert (d + [p])[i] == d[i];
    }
    if p.0 == key {
      assert (d + [p])[|d|] == p;
    }
  }

  /** Dropping the first entry keeps keys unique. */
  lemma UniqueKeysTail(d: Dict)
    requires |d| > 0 && UniqueKeys(d)
    ensures UniqueKeys(d[1..])
    ensures forall e | e in d[1..] :: e.0 != d[0].0
  {
    forall i, j | 0 <= i < j < |d[1..]| ensures d[1..][i].0 != d[1..][j].0 {
      assert d[1..][i] == d[i + 1] && d[1..][j] == d[j + 1];
    }
    forall e | e in d[1..] ensures e.0 != d[0].0 {
      var j :| 0 <= j < |d[1..]| && d[1..][j] == e;
      assert d[j + 1] == e;
    }
  }

  /** No key of `other` is a key of `d`. */
  predicate FreshKeys(d: Dict, other: Dict) {
    forall i | 0 <= i < |other| :: !HasKey(d, other[i].0)
  }

  /** After appending the first entry of `other`, the rest of `other` is still fresh. */
  lemma FreshAfterAppend(d: Dict, other: Dict)
    requires |other| > 0 && UniqueKeys(other) && FreshKeys(d, other)
    ensures FreshKeys(d + [other[0]], other[1..])
  {
    forall i | 0 <= i < |other| - 1 ensures !HasKey(d + [other[0]], other[1..][i].0) {
      assert other[1..][i] == other[i + 1];
      HasKeyAppend(d, other[0], other[i + 1].0);
    }
  }

  /** One step of `update` with a fresh first key appends that entry. */
  lemma UpdateStep(d: Dict, other: Dict)
    requires |other| > 0 && !HasKey(d, other[0].0)
    ensures Update(d, other) == Update(d + [other[0]], other[1..])
  {
    AssignFresh(d, other[0].0, other[0].1);
    assert (other[0].0, other[0].1) == other[0];
  }

  /** A one-entry dict followed by a two-entry dict. */
  lemma PrependOne(a: (string, Value), b: (string, Value), c: (string, Value))
    ensures [a] + [b, c] == [a, b, c]
  {
  }

  /** One entry followed by parts that hold one entry between them. */
  lemma PrependParts(a: (string, Value), b: (string, Value), p: Dict, q: Dict, r: Dict)
    requires p + q + r == [b]
    ensures [a] + p + q + r == [a, b]
  {
    assert [a] + p + q + r == [a] + (p + q + r);
  }

  lemma ConcatFirst(d: Dict, other: Dict)
    requires |other| > 0
    ensures (d + [other[0]]) + other[1..] == d + other
  {
    assert other == [other[0]] + other[1..];
  }

  /** `d.update(other)` with keys `d` does not hold is concatenation: Python dicts keep
      insertion order. */
  lemma {:induction false} UpdateFresh(d: Dict, other: Dict)
    requires UniqueKeys(other) && FreshKeys(d, other)
    ensures Update(d, other) == d + other
    decreases |other|
  {
    if |other| > 0 {
      var d' := d + [other[0]];
      UpdateStep(d, other);
      FreshAfterAppend(d, other);
      UniqueKeysTail(other);
      UpdateFresh(d', other[1..]);
      ConcatFirst(d, other);
    }
  }
}
