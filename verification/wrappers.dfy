/** The outcome of an operation that can fail, standing in for the exceptions of the source. */
module Wrappers {

  datatype Result<+T, +E> = Success(value: T) | Failure(error: E)
}
