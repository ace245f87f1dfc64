/** Failure-carrying results used where the original throws, asserts or returns an empty optional. */
module Wrappers {

  datatype Option<+T> = None | Some(value: T)

  datatype Result<+T, +E> = Success(value: T) | Failure(error: E)
}
