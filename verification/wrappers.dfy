/** Failure-carrying values shared by the whole model. */
module Wrappers {

  /** A value that may be absent: a partial function's answer. */
  datatype Option<+T> = None | Some(value: T)

  /** A value or the error that was raised instead of producing it. */
  datatype Result<+T, +E> = Ok(value: T) | Err(error: E)
}
