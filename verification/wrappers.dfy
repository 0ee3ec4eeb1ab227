/** Failure-carrying result types shared by the modules of this model. */
module Wrappers {

  /** A value that may be absent: a missing JSON field, a file that was not found. */
  datatype Option<+T> = None | Some(value: T)

  /** The outcome of an operation that either produces a value or reports why it did not. */
  datatype Result<+T, +E> = Success(value: T) | Failure(error: E)
}
