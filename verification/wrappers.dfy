/** Failure-carrying result types shared by the other modules. */
module Wrappers {

  /** A value that may be absent; Python's `None` return. */
  datatype Option<+T> = None | Some(value: T)

  /** A value or the exception that took its place. */
  datatype Result<+T, +E> = Ok(value: T) | Err(error: E)

  /** The outcome of a call that returns nothing but may raise. */
  datatype Outcome<+E> = Pass | Fail(error: E)
}
