/** Failure-carrying values shared by every module of the model. */
module Wrappers {

  /** An optional value: Go's "nil or a value". */
  datatype Option<+T> = None | Some(value: T)

  /** A value or an error: Go's `(T, error)` return pair. */
  datatype Result<+T, +E> = Ok(value: T) | Err(error: E)
}
