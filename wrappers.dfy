/** Option and Result, the two outcome types the rest of the model returns. */
module Wrappers {

  /** A value that may be missing. */
  datatype Option<+T> = None | Some(value: T)

  /** A value, or the error that prevented it. */
  datatype Result<+T, +E> = Success(value: T) | Failure(error: E)
}
