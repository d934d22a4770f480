/** Optional values and fallible results, used where the source returns
    null or throws an argument exception. */
module Wrappers {

  /** A value that may be absent (the source's `null`). */
  datatype Option<+T> = None | Some(value: T)

  /** The outcome of an operation that can reject its arguments. */
  datatype Result<+T, +E> = Success(value: T) | Failure(error: E)
}
