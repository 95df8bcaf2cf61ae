/** Failure-compatible result types shared by the other modules. */
module Wrappers {

  /** A value that may be absent: the model's stand-in for a C value that may be NULL. */
  datatype Option<+T> = None | Some(value: T)

  /** The outcome of an operation that can fail with an error of type E. */
  datatype Result<+T, +E> = Success(value: T) | Failure(error: E)
}
