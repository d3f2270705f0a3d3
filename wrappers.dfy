/** Option and Result, the two failure-carrying datatypes the model uses. */
module Wrappers {

  /** A value that may be absent (PHP's `false` or `null` returns). */
  datatype Option<T> = None | Some(value: T)

  /** The outcome of an operation that may throw: a value, or the error it raised. */
  datatype Result<T, E> = Success(value: T) | Failure(error: E)
}
