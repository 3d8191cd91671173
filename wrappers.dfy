/** Failure-carrying values shared by the other modules. */
module Wrappers {

  datatype Option<+T> = None | Some(value: T)

  /** The outcome of an operation that Python ends by raising an exception. */
  datatype Result<+T, +E> = Success(value: T) | Failure(error: E)
}
