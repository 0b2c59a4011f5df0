/** Failure-carrying values used across the model. */
module Wrappers {

  /** A value that may be absent, as JavaScript's `undefined` property or `null` match. */
  datatype Option<+T> = None | Some(value: T)

  /** The outcome of an operation whose JavaScript original can throw. */
  datatype Result<+T, +E> = Success(value: T) | Failure(error: E)
}
