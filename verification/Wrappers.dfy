/** Optional values and results with an error, standing for Swift's `T?` and for a
    transform that may throw. */
module Wrappers {

  /** Swift's `Optional`: `nil` is None. */
  datatype Option<+T> = None | Some(value: T)

  /** The outcome of a call to a throwing closure: a value, or the error it threw. */
  datatype Result<+T, +X> = Success(value: T) | Failure(error: X)
}
