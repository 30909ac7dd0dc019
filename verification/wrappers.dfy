/** Optional values and results with an error, used for every step that can
    fail or produce nothing. */
module Wrappers {

  /** A value that may be absent (a parse that failed, a column not found). */
  datatype Option<T> = None | Some(value: T)

  /** The outcome of a step that either produces a value or raises an error. */
  datatype Result<T, E> = Ok(value: T) | Err(error: E)
}
