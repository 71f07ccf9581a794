/** Failure-compatible datatypes used throughout the decoder.
    - Option<T>: a value that may be absent (Python's implicit `None`).
    - Result<T, E>: a value or the error that aborted the computation. */
module Wrappers {

  datatype Option<+T> = None | Some(value: T)

  datatype Result<+T, +E> = Success(value: T) | Failure(error: E) {

    predicate IsFailure() {
      Failure?
    }

    function PropagateFailure<U>(): Result<U, E>
      requires Failure?
    {
      Failure(error)
    }

    function Extract(): T
      requires Success?
    {
      value
    }
  }
}
