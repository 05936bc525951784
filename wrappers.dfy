/** Failure-carrying values shared by the scheduler model. */
module Wrappers {

  /** A value that may be absent (a nullable column, an empty `Optional`). */
  datatype Option<+T> = None | Some(value: T)

  /** A computed value, or the exception that replaced it. */
  datatype Result<+T, +E> = Ok(value: T) | Err(error: E)

  /** The outcome of an operation that returns nothing but may throw. */
  datatype Outcome<+E> = Pass | Fail(error: E)
}
