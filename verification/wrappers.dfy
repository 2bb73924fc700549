/** Option and Result types standing in for Java's nullable references and exceptions. */
module Wrappers {

  /** A value that may be absent; `None` plays the role of Java's `null`. */
  datatype Option<+T> = None | Some(value: T)

  /** The outcome of an operation that either succeeds with a value or fails with an error. */
  datatype Result<+R, +E> = Success(value: R) | Failure(error: E)

  /** The outcome of a check that either passes or fails with an error. */
  datatype Outcome<+E> = Pass | Fail(error: E)
}
