/** Option and Result, the failure-carrying values used throughout the model. */
module Wrappers {

  datatype Option<T> = None | Some(value: T)

  /** A PHP exception thrown by the compiler is a `Failure` carrying its cause. */
  datatype Result<T, E> = Success(value: T) | Failure(error: E)
}
