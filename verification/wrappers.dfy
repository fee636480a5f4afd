/** Option and Result, used throughout the model. */
module Wrappers {

  /** A value that may be absent; stands in for Java's `null` results. */
  datatype Option<+T> = None | Some(value: T)

  /** The outcome of an operation that can throw: a value or the exception raised. */
  datatype Result<+R, +F> = Success(value: R) | Failure(error: F)
}
