/** Option and Result, the two failure-carrying shapes the model needs. */
module Wrappers {

  /** A value that may be absent (Python's `Optional[...] = None`). */
  datatype Option<+T> = None | Some(value: T)

  /** Either a value or the error that Python would raise instead. */
  datatype Result<+T, +E> = Ok(value: T) | Err(error: E)
}
