/** The Python `list` operations the model leans on: `x in xs`, `xs.remove(x)` and
    `xs.pop(i)`, plus keyword lookup in the arguments of a call. */
module Lists {
  import opened Wrappers
  import opened Errors

  /** Prepending to a sequence known as a concatenation regroups. */
  lemma PrependAssoc<T>(hd: seq<T>, rest: seq<T>, b: seq<T>, c: seq<T>)
    requires rest == b + c
    ensures hd + rest == (hd + b) + c
  {
  }

  /** Past the first element, a sequence with one element prepended is the original,
      shifted by one. */
  lemma PrependIndex<T>(x: T, rest: seq<T>, k: nat)
    requires 0 < k <= |rest|
    ensures ([x] + rest)[k] == rest[k - 1]
  {
  }

  /** The position of the first element equal to `x`. */
  function IndexOf<T(==)>(xs: seq<T>, x: T): (i: nat)
    requires x in xs
    ensures i < |xs| && xs[i] == x && x !in xs[..i]
  {
    if xs[0] == x then 0
    else
      var j := IndexOf(xs[1..], x);
      assert xs[..j + 1] == [xs[0]] + xs[1..][..j];
      j + 1
  }

  /** `xs.remove(x)` once `x in xs` is known: the first equal element is taken out. */
  function RemoveFirst<T(==)>(xs: seq<T>, x: T): (r: seq<T>)
    requires x in xs
    ensures |r| == |xs| - 1
    ensures r == xs[..IndexOf(xs, x)] + xs[IndexOf(xs, x) + 1..]
  {
    if xs[0] == x then xs[1..]
    else
      var j := IndexOf(xs[1..], x);
      assert IndexOf(xs, x) == j + 1;
      assert xs[..j + 1] == [xs[0]] + xs[1..][..j];
      assert xs[j + 2..] == xs[1..][j + 1..];
      [xs[0]] + RemoveFirst(xs[1..], x)
  }

  /** Removing takes away exactly one copy of `x` and keeps everything else. */
  lemma RemoveFirstMultiset<T>(xs: seq<T>, x: T)
    requires x in xs
    ensures multiset(RemoveFirst(xs, x)) == multiset(xs) - multiset{x}
  {
    var i := IndexOf(xs, x);
    assert xs == xs[..i] + [x] + xs[i + 1..];
    calc {
      multiset(xs);
      multiset(xs[..i]) + multiset{x} + multiset(xs[i + 1..]);
      multiset(RemoveFirst(xs, x)) + multiset{x};
    }
  }

  /** Removing a value that was just appended, and occurred nowhere before, undoes the
      append. */
  lemma RemoveAppended<T>(xs: seq<T>, x: T)
    requires x !in xs
    ensures x in xs + [x] && RemoveFirst(xs + [x], x) == xs
  {
    assert (xs + [x])[|xs|] == x;
    var i := IndexOf(xs + [x], x);
    assert i == |xs|;
    assert (xs + [x])[..|xs|] == xs;
  }

  /** `xs.remove(x)`: ValueError when no element is equal to `x`. */
  function Remove<T(==)>(xs: seq<T>, x: T): (r: Result<seq<T>, Error>)
    ensures r.Success? <==> x in xs
    ensures r.Failure? ==> r.error == ValueError("list.remove(x): x not in list")
    ensures r.Success? ==> r.value == RemoveFirst(xs, x)
  {
    if x in xs then Success(RemoveFirst(xs, x)) else Failure(ValueError("list.remove(x): x not in list"))
  }

  /** `xs.pop(i)`: a negative index counts from the end; outside `-len <= i < len`,
      IndexError. Returns the popped element and the remaining list. */
  function Pop<T>(xs: seq<T>, i: int): (r: Result<(T, seq<T>), Error>)
    ensures r.Success? <==> -|xs| <= i < |xs|
    ensures r.Failure? ==> r.error == IndexError
    ensures r.Success? ==>
      var k := if i < 0 then |xs| + i else i;
      0 <= k < |xs| && r.value.0 == xs[k] && |r.value.1| == |xs| - 1
      && r.value.1[..k] == xs[..k] && r.value.1[k..] == xs[k + 1..]
  {
    if -|xs| <= i < |xs| then
      var k := if i < 0 then |xs| + i else i;
      Success((xs[k], xs[..k] + xs[k + 1..]))
    else Failure(IndexError)
  }

  /** Putting the popped element back where it was restores the list. */
  lemma PopInverse<T>(xs: seq<T>, i: int)
    requires Pop(xs, i).Success?
    ensures var k := if i < 0 then |xs| + i else i;
      var (x, rest) := Pop(xs, i).value;
      rest[..k] + [x] + rest[k..] == xs
  {
    var k := if i < 0 then |xs| + i else i;
    assert xs == xs[..k] + [xs[k]] + xs[k + 1..];
  }

  /** `key in kwargs` for the keyword arguments of a call. */
  predicate HasKw<X>(kwargs: seq<(string, X)>, key: string) {
    exists i | 0 <= i < |kwargs| :: kwargs[i].0 == key
  }

  /** `kwargs[key]`. */
  function Kw<X>(kwargs: seq<(string, X)>, key: string): (x: X)
    requires HasKw(kwargs, key)
    ensures (key, x) in kwargs
  {
    if kwargs[0].0 == key then kwargs[0].1
    else
      assert HasKw(kwargs[1..], key) by {
        var i :| 0 <= i < |kwargs| && kwargs[i].0 == key;
        assert kwargs[1..][i - 1].0 == key;
      }
      Kw(kwargs[1..], key)
  }

  /** The positional and keyword arguments of a call `f(*args, **kwargs)`. Keywords are
      distinct, as Python guarantees. */
  datatype Call<X> = Call(args: seq<X>, kwargs: seq<(string, X)>)

  /** Whether `f(*args, **kwargs)` binds to a function whose parameters are `params`,
      the first `required` of them without a default: no more positional arguments than
      parameters, keywords only for parameters the positional ones left open, and every
      parameter without a default given one way or the other. Otherwise Python raises
      TypeError. */
  predicate Binds<X>(params: seq<string>, required: nat, call: Call<X>) {
    && |call.args| <= |params|
    && (forall k | 0 <= k < |call.kwargs| :: call.kwargs[k].0 in params[|call.args|..])
    && (forall i | |call.args| <= i < |params| && i < required :: HasKw(call.kwargs, params[i]))
  }

  /** The value parameter `i` receives once the call binds: the positional argument, the
      keyword argument, or the parameter's default. */
  function BoundArg<X>(params: seq<string>, required: nat, defaults: seq<X>, call: Call<X>, i: nat): (x: X)
    requires Binds(params, required, call) && i < |params| && |defaults| == |params|
    ensures i < |call.args| ==> x == call.args[i]
    ensures |call.args| <= i && HasKw(call.kwargs, params[i]) ==> (params[i], x) in call.kwargs
    ensures |call.args| <= i && !HasKw(call.kwargs, params[i]) ==> i >= required && x == defaults[i]
  {
    if i < |call.args| then call.args[i]
    else if HasKw(call.kwargs, params[i]) then Kw(call.kwargs, params[i])
    else defaults[i]
  }
}
