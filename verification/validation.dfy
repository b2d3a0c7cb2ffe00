/** `validate_type`, `validate_str` and `validate_int` (kakao/validation.py). The check is
    written once, over any kind of checked value: a value is admitted when it is an
    instance of an allowed type, or when it is None and None is not disallowed. */
module Validation {
  import opened Wrappers
  import opened Errors
  import opened PyValue

  /** Whether one value gets through the loop body of `validate_type`. */
  predicate Admits<X>(isNone: X -> bool, isInstance: X -> bool, x: X, disallowNone: bool) {
    if isNone(x) then !disallowNone else isInstance(x)
  }

  /** `validate_type(allowed, *values, disallow_none=..., exception_type=exc)`: scans the
      values left to right and raises `exc` at the first one that is not admitted. */
  function ValidateType<X>(isNone: X -> bool, isInstance: X -> bool, values: seq<X>,
                           disallowNone: bool, exc: Error): (r: Outcome)
    ensures r.Success? <==> forall i | 0 <= i < |values| :: Admits(isNone, isInstance, values[i], disallowNone)
    ensures r.Failure? ==> r.error == exc
  {
    if |values| == 0 then Pass
    else if disallowNone && isNone(values[0]) then Failure(exc)
    else if !isNone(values[0]) && !isInstance(values[0]) then Failure(exc)
    else ValidateType(isNone, isInstance, values[1..], disallowNone, exc)
  }

  /** `validate_type` over plain values with a tuple of built-in types. */
  function ValidateValues(types: seq<PyType>, values: seq<Value>, disallowNone: bool, exc: Error): (r: Outcome)
    ensures r.Success? <==> forall i | 0 <= i < |values| ::
      if values[i].VNone? then !disallowNone else IsInstanceOfAny(values[i], types)
    ensures r.Failure? ==> r.error == exc
  {
    ValidateType((v: Value) => v.VNone?, (v: Value) => IsInstanceOfAny(v, types), values, disallowNone, exc)
  }

  /** A single allowed type behaves exactly like the one-element tuple it is wrapped in. */
  lemma SingleType(t: PyType)
    ensures forall v: Value :: IsInstanceOfAny(v, [t]) <==> IsInstance(v, t)
  {
    forall v: Value ensures IsInstanceOfAny(v, [t]) <==> IsInstance(v, t) {
      if IsInstance(v, t) {
        assert t in [t];
      }
    }
  }

  /** `validate_str(*values, disallow_none=...)`. */
  function ValidateStr(values: seq<Value>, disallowNone: bool): (r: Outcome)
    ensures r.Success? <==> forall i | 0 <= i < |values| ::
      values[i].VStr? || (values[i].VNone? && !disallowNone)
    ensures r.Failure? ==> r.error == InvalidTypeError
  {
    SingleType(StrType);
    ValidateValues([StrType], values, disallowNone, InvalidTypeError)
  }

  /** `validate_int(*values, disallow_none=...)`; a bool passes, as `bool` derives
      from `int`. */
  function ValidateInt(values: seq<Value>, disallowNone: bool): (r: Outcome)
    ensures r.Success? <==> forall i | 0 <= i < |values| ::
      values[i].VInt? || values[i].VBool? || (values[i].VNone? && !disallowNone)
    ensures r.Failure? ==> r.error == InvalidTypeError
  {
    SingleType(IntType);
    ValidateValues([IntType], values, disallowNone, InvalidTypeError)
  }

  /** `validate_type(C, *refs, ...)` for attributes that should hold instances of one of
      the library's classes. */
  function ValidateRefs<T>(refs: seq<Ref<T>>, disallowNone: bool, exc: Error): (r: Outcome)
    ensures r.Success? <==> forall i | 0 <= i < |refs| ::
      refs[i].Inst? || (refs[i].IsNone() && !disallowNone)
    ensures r.Failure? ==> r.error == exc
  {
    ValidateType((x: Ref<T>) => x.IsNone(), (x: Ref<T>) => x.Inst?, refs, disallowNone, exc)
  }

  /** With nothing to check, nothing is raised. */
  lemma NoValuesPass<X>(isNone: X -> bool, isInstance: X -> bool, disallowNone: bool, exc: Error)
    ensures ValidateType(isNone, isInstance, [], disallowNone, exc) == Pass
  {
  }

  /** Checking `a + b` is checking `a`, then `b`: the first failure wins. */
  lemma {:induction false} ValidateTypeConcat<X>(isNone: X -> bool, isInstance: X -> bool,
                                                 a: seq<X>, b: seq<X>, disallowNone: bool, exc: Error)
    ensures ValidateType(isNone, isInstance, a + b, disallowNone, exc)
         == (if ValidateType(isNone, isInstance, a, disallowNone, exc).Success?
             then ValidateType(isNone, isInstance, b, disallowNone, exc)
             else Failure(exc))
    decreases |a|
  {
    if |a| == 0 {
      assert a + b == b;
    } else {
      assert (a + b)[0] == a[0];
      assert (a + b)[1..] == a[1..] + b;
      ValidateTypeConcat(isNone, isInstance, a[1..], b, disallowNone, exc);
    }
  }
}
