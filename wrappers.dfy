/** Option and Result, the two failure-compatible wrappers the model uses for
    C#'s nullable values and thrown exceptions. */
module Wrappers {

  /** A nullable value: `None` is C#'s `null`. */
  datatype Option<+T> = None | Some(value: T)

  /** The outcome of a call that either returns a value or throws. */
  datatype Result<+T, +E> = Success(value: T) | Failure(error: E) {

    predicate IsFailure() {
      Failure?
    }

    function PropagateFailure<U>(): Result<U, E>
      requires Failure?
    {
      Failure(error)
    }

    function Extract(): T
      requires Success?
    {
      value
    }
  }

  /** C#'s null-coalescing operator `preferred ?? fallback`. */
  function Coalesce<T>(preferred: Option<T>, fallback: Option<T>): Option<T>
  {
    if preferred.Some? then preferred else fallback
  }
}
