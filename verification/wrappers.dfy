/** Option and Result, the two failure-compatible wrappers the model needs. */
module Wrappers {

  /** `None` stands for a null reference. */
  datatype Option<+T> = None | Some(value: T)

  /** `Failure` stands for an exception thrown to the caller. */
  datatype Result<+R, +E> = Success(value: R) | Failure(error: E)
}
