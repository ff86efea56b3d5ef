/** Result types: the model's stand-in for Java's
    Optional, return values and thrown exceptions. */
module Wrappers {

  datatype Option<+T> = None | Some(value: T)

  /** A value, or the error the Java code would have thrown. */
  datatype Result<+R, +E> = Success(value: R) | Failure(error: E)

  /** The outcome of a `void` method: it returned normally, or it threw. */
  datatype Outcome<+E> = Pass | Fail(error: E)
}
