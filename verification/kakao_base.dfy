/** `BaseModel.remove_none_item` (kakao/base.py): the step every `render()` ends with. */
module KakaoBase {
  import opened Wrappers
  import opened PyValue

  /** `remove_none_item(base)`: a fresh dict holding the entries of `base` whose value is
      not None, in their original order. */
  function RemoveNone(base: Dict): (out: Dict)
    ensures forall i | 0 <= i < |out| :: !out[i].1.VNone?
    ensures forall e :: e in out <==> e in base && !e.1.VNone?
    ensures |out| <= |base|
  {
    if |base| == 0 then []
    else if base[0].1.VNone? then RemoveNone(base[1..])
    else [base[0]] + RemoveNone(base[1..])
  }

  /** Filtering distributes over concatenation, so the kept entries stay in order. */
  lemma {:induction false} RemoveNoneConcat(a: Dict, b: Dict)
    ensures RemoveNone(a + b) == RemoveNone(a) + RemoveNone(b)
    decreases |a|
  {
    if |a| == 0 {
      assert a + b == b;
    } else {
      assert (a + b)[0] == a[0];
      assert (a + b)[1..] == a[1..] + b;
      RemoveNoneConcat(a[1..], b);
    }
  }

  /** A dict without None values is returned as it is. */
  lemma {:induction false} RemoveNoneNoOp(base: Dict)
    requires forall i | 0 <= i < |base| :: !base[i].1.VNone?
    ensures RemoveNone(base) == base
    decreases |base|
  {
    if |base| > 0 {
      RemoveNoneNoOp(base[1..]);
    }
  }

  /** Stripping twice strips nothing more. */
  lemma RemoveNoneIdempotent(base: Dict)
    ensures RemoveNone(RemoveNone(base)) == RemoveNone(base)
  {
    RemoveNoneNoOp(RemoveNone(base));
  }

  /** Every key of the output was a key of the input, in the same relative order. */
  lemma {:induction false} RemoveNoneKeys(base: Dict)
    ensures forall k | k in Keys(RemoveNone(base)) :: k in Keys(base)
    ensures UniqueKeys(base) ==> UniqueKeys(RemoveNone(base))
    decreases |base|
  {
    if |base| > 0 {
      RemoveNoneKeys(base[1..]);
      var rest := RemoveNone(base[1..]);
      if !base[0].1.VNone? && UniqueKeys(base) {
        assert base[0].0 !in Keys(base[1..]);
        assert base[0].0 !in Keys(rest);
        forall i, j | 0 <= i < j < |[base[0]] + rest|
          ensures ([base[0]] + rest)[i].0 != ([base[0]] + rest)[j].0
        {
          if i == 0 {
            assert ([base[0]] + rest)[j].0 == Keys(rest)[j - 1];
          }
        }
      }
    }
  }

  /** An entry of `base` is kept exactly when its value is not None. */
  lemma StrippedEntryAt(base: Dict, i: nat)
    requires i < |base|
    ensures base[i] in RemoveNone(base) <==> !base[i].1.VNone?
  {
    assert base[i] in base;
  }

  /** A key that occurs once in `base` survives the stripping exactly when its value is
      not None. */
  lemma StrippedKeyAt(base: Dict, i: nat)
    requires i < |base|
    requires forall j | 0 <= j < |base| && j != i :: base[j].0 != base[i].0
    ensures HasKey(RemoveNone(base), base[i].0) <==> !base[i].1.VNone?
  {
    var out := RemoveNone(base);
    if !base[i].1.VNone? {
      assert base[i] in out;
      var m :| 0 <= m < |out| && out[m] == base[i];
    }
    if HasKey(out, base[i].0) {
      var m :| 0 <= m < |out| && out[m].0 == base[i].0;
      assert out[m] in base;
      var j :| 0 <= j < |base| && base[j] == out[m];
    }
  }

  /** What `remove_none_item` keeps of one value. */
  function Present(v: Value): Option<Value> {
    if v.VNone? then None else Some(v)
  }

  /** Looking a key up after the stripping finds its value unless that value was None. */
  lemma {:induction false} StrippedGet(base: Dict, key: string)
    requires UniqueKeys(base)
    ensures Get(RemoveNone(base), key) ==
      if Get(base, key).Some? && !Get(base, key).value.VNone? then Get(base, key) else None
    decreases |base|
  {
    if |base| > 0 {
      UniqueKeysTail(base);
      StrippedGet(base[1..], key);
      if base[0].0 == key && base[0].1.VNone? {
        forall i | 0 <= i < |base[1..]| ensures base[1..][i].0 != key {
          assert base[1..][i] in base[1..];
        }
      }
    }
  }
}
