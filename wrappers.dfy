/** Optional values and results with an error, as used across the model. */
module Wrappers {

  /** A value that may be absent (Python's `None`). */
  datatype Option<+T> = None | Some(value: T)

  /** A value, or the error that a computation raises instead. */
  datatype Result<+R, +E> = Success(value: R) | Failure(error: E)
}
