/** Failure-carrying wrappers used for the error paths of the model. */
module Wrappers {

  /** A value that may be missing (Python's `None`). */
  datatype Option<+T> = None | Some(value: T)

  /** Either a value or the error that was raised instead. */
  datatype Result<+T, +E> = Success(value: T) | Failure(error: E)

  /** An operation that returns nothing but may be rejected. */
  datatype Outcome<+E> = Pass | Fail(error: E)
}
