/** Failure-compatible wrappers used across the model: `Option` for the
    wrapper's nullable `Path` settings and `Result` for the runs that end in
    an exception. */
module Wrappers {

  /** A value that may be absent, the model of a Java reference that may be null. */
  datatype Option<+T> = None | Some(value: T)

  /** Either a value or the error that aborted the computation. */
  datatype Result<+T, +E> = Success(value: T) | Failure(error: E) {

    predicate IsFailure() {
      Failure?
    }

    function PropagateFailure<U>(): Result<U, E>
      requires Failure?
    {
      Failure(error)
    }

    function Extract(): T
      requires Success?
    {
      value
    }
  }
}
