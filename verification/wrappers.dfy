/** Failure-carrying values used across the model. */
module Wrappers {

  /** A value that may be missing; `None` also stands for a pandas NaN cell. */
  datatype Option<+T> = None | Some(value: T)

  /** The outcome of an operation that can fail with an error of type `E`. */
  datatype Result<+T, +E> = Ok(value: T) | Err(error: E)
}
