/** Optional values and results with an error, used by every handler model. */
module Wrappers {

  /** A value that may be absent: an undefined property, a NULL column. */
  datatype Option<+T> = None | Some(value: T)

  /** The outcome of a step that can fail with an error of type E. */
  datatype Result<+T, +E> = Ok(value: T) | Err(error: E)
}
