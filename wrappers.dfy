/** Optional values and success/failure results. */
module Wrappers {

  /** A value that may be absent: `None` stands for JavaScript's `undefined`. */
  datatype Option<+T> = None | Some(value: T)

  /** The outcome of an operation that can fail: a value, or the error that aborted it. */
  datatype Result<+R, +E> = Success(value: R) | Failure(error: E)
}
