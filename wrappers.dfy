/** Optional values and results with a failure value, as used throughout the model. */
module Wrappers {

  /** A value that may be absent: stands for a nullable `string?` of the source. */
  datatype Option<+T> = None | Some(value: T)

  /** The outcome of a computation that either completes with a value or throws. */
  datatype Result<+T, +E> = Success(value: T) | Failure(error: E)
}
