/** Failure-carrying results used in place of the panics of the original library. */
module Wrappers {

  /** A value or the reason it could not be produced. */
  datatype Result<+T, +E> = Success(value: T) | Failure(error: E)

  /** Success without a value, or the reason for failing. */
  datatype Outcome<+E> = Pass | Fail(error: E)
}
