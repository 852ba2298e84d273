/** Failure-carrying values used across the model. */
module Wrappers {

  /** A value that may be absent; Python's `None` return is `None` here. */
  datatype Option<+T> = None | Some(value: T)

  /** A value or the error that the source would raise instead. */
  datatype Result<+T, +E> = Success(value: T) | Failure(error: E)
}
