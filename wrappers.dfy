/** Optional values and results that carry an error instead of raising it. */
module Wrappers {

  /** Python's `Optional[T]`: `None` or a value. */
  datatype Option<T> = None | Some(value: T)

  /** The outcome of a computation that can raise: a value, or the error it raised. */
  datatype Result<T, E> = Ok(value: T) | Err(error: E)
}
