/** Failure-carrying values used across the model. */
module Wrappers {

  /** A value that may be missing (a regex that did not match, a `False` return). */
  datatype Option<+T> = None | Some(value: T)

  /** The outcome of an operation that raises an exception in the program. */
  datatype Result<+T> = Ok(value: T) | Err(error: string)
}
