/** Failure-compatible wrappers used by every operation of the persistence model. */
module Wrappers {

  /** A value that may be missing: JavaScript's `null`/`undefined`, or a Redis nil reply. */
  datatype Option<+T> = None | Some(value: T)

  /** The outcome of an operation: the value handed to its callback, or the error it reports. */
  datatype Result<+T, +E> = Success(value: T) | Failure(error: E) {

    predicate IsFailure() {
      Failure?
    }

    function PropagateFailure<U>(): Result<U, E>
      requires Failure?
    {
      Failure(error)
    }

    function Extract(): T
      requires Success?
    {
      value
    }
  }
}
