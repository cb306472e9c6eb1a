/** Failure-carrying values used in place of Java's null results and exceptions. */
module Wrappers {

  /** A value that may be absent (Java's null). */
  datatype Option<+T> = None | Some(value: T)

  /** A computed value or the exception that stopped the computation. */
  datatype Result<+T, +E> = Ok(value: T) | Err(error: E)
}
