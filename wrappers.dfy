/** Option and Result, the two failure-carrying wrappers the rest of the model uses. */
module Wrappers {

  /** Python's `None` next to a present value. */
  datatype Option<T> = None | Some(value: T)

  /** A value, or the exception that replaced it. */
  datatype Result<T, E> = Ok(value: T) | Err(error: E)
}
