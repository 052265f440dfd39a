/** Failure-carrying values shared by every module of the model. */
module Wrappers {

  /** A value that may be absent; `None` also stands for Go's nil error. */
  datatype Option<+T> = None | Some(value: T)

  /** A value or an error, for Go's `(T, error)` pairs. */
  datatype Result<+T, +E> = Ok(value: T) | Err(error: E)
}
