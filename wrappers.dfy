/** Failure-carrying values used across the model. */
module Wrappers {

  /** A value that may be absent: the source's `null` results. */
  datatype Option<+T> = None | Some(value: T)

  /** Either a value or the reason it could not be produced. */
  datatype Result<+T, +E> = Ok(value: T) | Err(error: E)
}
