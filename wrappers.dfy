/** Failure-carrying values used across the model. */
module Wrappers {

  /** A value that may be absent (Python's `None`). */
  datatype Option<+T> = None | Some(value: T)

  /** The outcome of a computation that may raise: a returned value or the raised error. */
  datatype Result<+R, +E> = Success(value: R) | Failure(error: E)
}
