/** Option, Result and Outcome: the values the model uses for PHP's NULL and exceptions. */
module Wrappers {

  datatype Option<+T> = None | Some(value: T)

  /** The value of an operation that either returns or throws. */
  datatype Result<+T, +E> = Success(value: T) | Failure(error: E)

  /** The value of an operation that returns nothing or throws. */
  datatype Outcome<+E> = Pass | Fail(error: E)
}
