/** Failure-carrying result types used across the model. */
module Wrappers {

  /** An optional value; `None` marks input that a decoder rejects. */
  datatype Option<+T> = None | Some(value: T)

  /** The outcome of an operation that the modelled program can abort with an exception. */
  datatype Result<+R, +E> = Success(value: R) | Failure(error: E)
}
