/** The exceptions the library and the crawler raise, one tag per exception class.
    `InvalidTypeError`, `InvalidLinkError`, `InvalidActionError` and `InvalidPayloadError`
    are the library's own classes; the rest are Python built-ins. */
module Errors {
  import opened Wrappers

  datatype Error =
    | InvalidTypeError
    | InvalidLinkError
    | InvalidActionError
    | InvalidPayloadError
    | ValueError(message: string)
    | AssertionError
    | NotImplementedError
    | KeyError
    | TypeError
    | AttributeError
    | IndexError
  {
    /** `except ValueError` catches the built-in and every custom error class,
        since each custom class derives from it. */
    predicate IsValueError() {
      || InvalidTypeError?
      || InvalidLinkError?
      || InvalidActionError?
      || InvalidPayloadError?
      || ValueError?
    }
  }

  /** The outcome of a `validate()` call: it returns nothing or raises. */
  type Outcome = Result<(), Error>

  const Pass: Outcome := Success(())

  /** A call that mutates its object and may raise afterwards: the state it leaves
      behind, and the exception it raised, if any. */
  datatype Effect<S> = Effect(state: S, raised: Option<Error>)

  /** Raise `e` unless `cond` holds. */
  function Require(cond: bool, e: Error): (r: Outcome)
    ensures r.Success? <==> cond
    ensures r.Failure? ==> r.error == e
  {
    if cond then Pass else Failure(e)
  }
}
