/** Failure-carrying values shared by the other modules. */
module Wrappers {

  /** A value that may be missing: Python's `None`, or an absent key. */
  datatype Option<+T> = None | Some(value: T)

  /** The outcome of an operation that can fail with an error value. */
  datatype Result<+T, +E> = Ok(value: T) | Err(error: E)
}
