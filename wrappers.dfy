/** The outcome of an operation that can fail. */
module Wrappers {

  datatype Result<+T, +E> = Success(value: T) | Failure(error: E)
}
