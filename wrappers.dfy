/** Option and Result values used across the model. */
module Wrappers {

  /** A value that may be absent: Python's None or a missing dictionary key. */
  datatype Option<+T> = None | Some(value: T)

  /** Either a value or the exception that aborted the computation. */
  datatype Result<+T, +E> = Ok(value: T) | Err(error: E)
}
