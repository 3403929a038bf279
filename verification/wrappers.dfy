/** Failure-carrying results, used where the engine throws an exception. */
module Wrappers {

  /** Either the value an operation produced or the error it raised. */
  datatype Result<+R, +E> = Success(value: R) | Failure(error: E)
}
