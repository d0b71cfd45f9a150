/** Optional values and call outcomes used across the model. */
module Wrappers {

  /** A value that may be absent (Python's `Optional[T]`). */
  datatype Option<+T> = None | Some(value: T)

  /** The outcome of a call that may raise: a value, or the error it raised. */
  datatype Result<+T> = Success(value: T) | Failure(error: string)
}
