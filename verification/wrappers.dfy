/** Option and Result types for the error paths of the model. */
module Wrappers {

  /** A value that may be absent (Python's `None`). */
  datatype Option<+T> = None | Some(value: T)

  /** A value or the error that replaced it (a raised exception in the source). */
  datatype Result<+R, +E> = Success(value: R) | Failure(error: E)
}
