/** Optional values and error-carrying results used across the pipeline. */
module Wrappers {

  /** A value that may be missing (a pandas NaN or None cell). */
  datatype Option<+T> = None | Some(value: T)

  /** The outcome of an operation that can raise. */
  datatype Result<+T, +E> = Success(value: T) | Failure(error: E)
}
