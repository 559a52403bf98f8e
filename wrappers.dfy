/** Failure-carrying result types shared by the other modules. */
module Wrappers {

  datatype Option<T> = None | Some(value: T)

  /** The outcome of an operation that either yields a value or fails with a message. */
  datatype Result<T, E> = Success(value: T) | Failure(error: E)
}
