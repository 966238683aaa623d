/** Optional values and results, as used throughout the model. */
module Wrappers {

  /** A value that may be absent (JSON `null` in the configuration file). */
  datatype Option<+T> = None | Some(value: T)

  /** Either a value or the reason it could not be produced. */
  datatype Result<+T, +E> = Success(value: T) | Failure(error: E)
}
