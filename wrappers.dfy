/** Option and Result, the failure-carrying wrappers the rest of the model uses. */
module Wrappers {

  /** A value that may be absent; `None` plays the part of a null reference. */
  datatype Option<+T> = None | Some(value: T)

  /** The outcome of an operation that either succeeds or fails with an error value. */
  datatype Result<+T, +E> = Success(value: T) | Failure(error: E)
}
