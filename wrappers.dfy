/** Option and Result, used for the error paths of the tile model. */
module Wrappers {

  /** A value that may be absent (a lookup that raises in the source). */
  datatype Option<+T> = None | Some(value: T)

  /** The outcome of an operation that can fail with an error of type E. */
  datatype Result<+T, +E> = Success(value: T) | Failure(error: E)
}
