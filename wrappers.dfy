/** Option and Result: the absent argument and the raised exception of the
    harness, as values. */
module Wrappers {

  /** Python's `None` versus a supplied value. */
  datatype Option<+T> = None | Some(value: T)

  /** The value computed, or the exception that would have been raised. */
  datatype Result<+T, +E> = Ok(value: T) | Err(error: E)
}
