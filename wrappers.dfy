/** Option and Outcome values used in place of Java's null results and exceptions. */
module Wrappers {

  /** A value that may be absent; `None` stands for a Java `null` result. */
  datatype Option<+T> = None | Some(value: T)

  /** The result of an operation that either completes or fails with an error. */
  datatype Outcome<+E> = Pass | Fail(error: E)

  /** A value, or the error that prevented computing it. */
  datatype Result<+R, +E> = Success(value: R) | Failure(error: E)
}
