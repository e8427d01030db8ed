/** Option and Result, shared by the whole model. */
module Wrappers {

  /** A nullable value: `None` plays the role of a missing cell (NaN). */
  datatype Option<+T> = None | Some(value: T)

  /** The outcome of an operation that can fail with an error of type `E`. */
  datatype Result<+T, +E> = Success(value: T) | Failure(error: E)
}
