/** Failure-carrying values for the steady-state residual systems.
    The C++ reports failures by throwing; here every failure is a value. */
module Results {

  /** Why an evaluation stopped. */
  datatype Error =
      /** An element read outside a vector. The C++ reads without a bounds check,
          so such a read is undefined behaviour there; the model stops with this value. */
    | IndexOutOfRange(index: int, size: int)
      /** The `invalid_argument` raised when a variant is asked for a case it does not handle. */
    | InvalidArgument(caller: string, message: string)
      /** A failure raised inside a collaborator (integrator, right-hand side, infusion check). */
    | Raised(message: string)

  /** A value or the error that prevented it. */
  datatype Result<+T> = Success(value: T) | Failure(error: Error)

  /** The outcome of a guard that either passes or raises. */
  datatype Outcome = Pass | Fail(error: Error)

  /** Reads `s[i]`, reporting a read outside `s` instead of performing it. */
  function At<T>(s: seq<T>, i: int): (r: Result<T>)
    ensures 0 <= i < |s| ==> r == Success(s[i])
    ensures !(0 <= i < |s|) ==> r == Failure(IndexOutOfRange(i, |s|))
  {
    if 0 <= i < |s| then Success(s[i]) else Failure(IndexOutOfRange(i, |s|))
  }
}
