/** Option and Result types used for the source's nullable fields and thrown exceptions. */
module Wrappers {

  /** A value that may be absent (a Java `null`). */
  datatype Option<+T> = None | Some(value: T)

  /** The outcome of an operation that either produces a value or fails with an error.
      A failing operation of the source rolls its transaction back, so a `Failure`
      carries no new state: the caller keeps the state it had. */
  datatype Result<+T, +E> = Success(value: T) | Failure(error: E) {

    predicate IsFailure() {
      Failure?
    }

    function PropagateFailure<U>(): Result<U, E>
      requires Failure?
    {
      Failure(error)
    }

    function Extract(): T
      requires Success?
    {
      value
    }
  }
}
