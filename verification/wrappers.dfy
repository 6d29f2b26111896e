/** Option and Result, the failure-carrying values used across the pipeline model. */
module Wrappers {

  datatype Option<+T> = None | Some(value: T)

  /** A computation that either produced a value or raised a Python exception. */
  datatype Result<+T, +E> = Success(value: T) | Failure(error: E)
}
