/** Option and Result, the two failure-carrying shapes the estimator models use. */
module Wrappers {

  /** A value that may be absent, as Python's `None`. */
  datatype Option<+T> = None | Some(value: T)

  /** Either a value, or the message of an exception that escapes to the caller. */
  datatype Result<+T, +E> = Success(value: T) | Failure(error: E)
}
