/** Option and result types used across the model in place of Java's null and exceptions. */
module Wrappers {

  /** `None` stands for a Java `null` result. */
  datatype Option<+T> = None | Some(value: T)

  /** A value, or the exception that a Java method throws instead of returning. */
  datatype Result<+R, +E> = Success(value: R) | Failure(error: E)

  /** The outcome of a Java method that returns `this` for chaining, or throws. */
  datatype Outcome<+E> = Pass | Fail(error: E)
}
