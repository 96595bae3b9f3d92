/** Option and Result: Java's nullable references and thrown exceptions, as values. */
module Wrappers {

  /** `None` stands for a Java `null` reference. */
  datatype Option<+T> = None | Some(value: T)

  /** `Failure` stands for an exception the Java code throws to its caller. */
  datatype Result<+R, +E> = Success(value: R) | Failure(error: E)
}
