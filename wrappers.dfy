/** Failure-compatible wrappers used across the model. */
module Wrappers {

  /** A value that may be missing: the model's stand-in for NaN and for an absent column. */
  datatype Option<+T> = None | Some(value: T)

  /** The outcome of an operation that can raise an error in the source. */
  datatype Result<+R, +E> = Success(value: R) | Failure(error: E)
}
