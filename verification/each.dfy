/** The two loops over lists of nested objects that recur throughout the library:
    `[x.render() for x in xs]` and `for x in xs: assert isinstance(x, C); x.validate()`.
    Both stop at the first element that raises. */
module Each {
  import opened Wrappers
  import opened Errors
  import opened PyValue

  /** Whether `x.render()` returns for one element: it must be an instance (None has no
      `render`) and its own render must succeed. */
  predicate Renders<T>(x: Ref<T>, render: T -> Result<Dict, Error>) {
    x.Inst? && render(x.obj).Success?
  }

  /** What `x.render()` raises for an element that does not render. */
  function RenderError<T>(x: Ref<T>, render: T -> Result<Dict, Error>): Error
    requires !Renders(x, render)
  {
    if x.Inst? then render(x.obj).error else AttributeError
  }

  /** `[x.render() for x in xs]`: one rendered dict per element, in order, or the
      exception of the first element that does not render. */
  function RenderEach<T>(xs: seq<Ref<T>>, render: T -> Result<Dict, Error>): (r: Result<seq<Value>, Error>)
    ensures r.Success? <==> forall i | 0 <= i < |xs| :: Renders(xs[i], render)
    ensures r.Success? ==> |r.value| == |xs|
    ensures r.Success? ==> forall i | 0 <= i < |xs| :: r.value[i] == VDict(render(xs[i].obj).value)
    ensures r.Failure? ==> exists i | 0 <= i < |xs| ::
      && (forall j | 0 <= j < i :: Renders(xs[j], render))
      && !Renders(xs[i], render) && r.error == RenderError(xs[i], render)
    decreases |xs|
  {
    if |xs| == 0 then Success([])
    else if !Renders(xs[0], render) then Failure(RenderError(xs[0], render))
    else
      var rest := RenderEach(xs[1..], render);
      if rest.Failure? then
        assert forall i | 1 <= i < |xs| :: xs[i] == xs[1..][i - 1];
        Failure(rest.error)
      else
        Success([VDict(render(xs[0].obj).value)] + rest.value)
  }

  /** Whether `assert isinstance(x, C); x.validate()` gets through for one element. */
  predicate Validates<T>(x: Ref<T>, validate: T -> Result<(), Error>) {
    x.Inst? && validate(x.obj).Success?
  }

  /** The exception for an element that does not validate. */
  function ValidateError<T>(x: Ref<T>, validate: T -> Result<(), Error>): Error
    requires !Validates(x, validate)
  {
    if x.Inst? then validate(x.obj).error else AssertionError
  }

  /** `for x in xs: assert isinstance(x, C); x.validate()`. */
  function ValidateEach<T>(xs: seq<Ref<T>>, validate: T -> Result<(), Error>): (r: Result<(), Error>)
    ensures r.Success? <==> forall i | 0 <= i < |xs| :: Validates(xs[i], validate)
    ensures r.Failure? ==> exists i | 0 <= i < |xs| ::
      && (forall j | 0 <= j < i :: Validates(xs[j], validate))
      && !Validates(xs[i], validate) && r.error == ValidateError(xs[i], validate)
    decreases |xs|
  {
    if |xs| == 0 then Success(())
    else if !Validates(xs[0], validate) then Failure(ValidateError(xs[0], validate))
    else
      var rest := ValidateEach(xs[1..], validate);
      assert forall i | 1 <= i < |xs| :: xs[i] == xs[1..][i - 1];
      rest
  }

  /** `x.render() if x else None`: an unset (falsy) attribute gives None, an instance
      gives its rendering, and any other truthy value has no `render`. */
  function RenderIfSet<T>(x: Ref<T>, render: T -> Result<Dict, Error>): (r: Result<Value, Error>)
    ensures r.Success? <==> (x.Inst? ==> render(x.obj).Success?) && (x.Plain? ==> !Truthy(x.v))
    ensures r.Success? ==> (r.value.VNone? <==> x.Plain?)
    ensures x.Inst? && r.Success? ==> r.value == VDict(render(x.obj).value)
    ensures x.Inst? && r.Failure? ==> r.error == render(x.obj).error
    ensures x.Plain? && r.Failure? ==> r.error == AttributeError
  {
    match x
    case Inst(obj) =>
      var d :- render(obj);
      Success(VDict(d))
    case Plain(v) => if Truthy(v) then Failure(AttributeError) else Success(VNone)
  }

  /** `[x.render() for x in xs]` over elements already known to be objects: one dict
      per element, in order, or the exception of the first that does not render. */
  function RenderAll<T>(xs: seq<T>, render: T -> Result<Dict, Error>): (r: Result<seq<Value>, Error>)
    ensures r.Success? <==> forall i | 0 <= i < |xs| :: render(xs[i]).Success?
    ensures r.Success? ==> |r.value| == |xs|
    ensures r.Success? ==> forall i | 0 <= i < |xs| :: r.value[i] == VDict(render(xs[i]).value)
    ensures r.Failure? ==> exists i | 0 <= i < |xs| ::
      && (forall j | 0 <= j < i :: render(xs[j]).Success?)
      && render(xs[i]) == Failure(r.error)
    decreases |xs|
  {
    if |xs| == 0 then Success([])
    else
      var d :- render(xs[0]);
      var rest := RenderAll(xs[1..], render);
      assert forall i | 1 <= i < |xs| :: xs[i] == xs[1..][i - 1];
      if rest.Failure? then Failure(rest.error)
      else Success([VDict(d)] + rest.value)
  }

  /** `for x in xs: x.validate()` over elements already known to be objects: stops at
      the first that does not validate. */
  function ValidateAll<T>(xs: seq<T>, validate: T -> Result<(), Error>): (r: Result<(), Error>)
    ensures r.Success? <==> forall i | 0 <= i < |xs| :: validate(xs[i]).Success?
    ensures r.Failure? ==> exists i | 0 <= i < |xs| ::
      && (forall j | 0 <= j < i :: validate(xs[j]).Success?)
      && validate(xs[i]) == r
    decreases |xs|
  {
    if |xs| == 0 then Success(())
    else
      var _ :- validate(xs[0]);
      assert forall i | 1 <= i < |xs| :: xs[i] == xs[1..][i - 1];
      ValidateAll(xs[1..], validate)
  }
}
