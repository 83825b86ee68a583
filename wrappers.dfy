/** Failure-carrying results: the model's stand-in for PHP exceptions. */
module Wrappers {

  datatype Option<+T> = None | Some(value: T)

  /** Either a value or the exception the PHP code would have thrown. */
  datatype Result<+R, +E> = Success(value: R) | Failure(error: E)

  /** The outcome of an operation that returns nothing but may throw. */
  datatype Outcome<+E> = Pass | Fail(error: E)
}
