/** Failure-carrying values: Go's `(value, error)` pairs and nil-or-error returns. */
module Wrappers {

  /** An optional value; `Some(e)` is how a nil-or-error return carries its error. */
  datatype Option<+T> = None | Some(value: T)

  /** A value or an error, as Go's `(T, error)` pairs. */
  datatype Result<+T, +E> = Ok(value: T) | Err(error: E)
}
