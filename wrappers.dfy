/** Failure-compatible wrappers: a Java reference that may be `null`, and an
    operation that either returns a value or throws. */
module Wrappers {

  /** `None` stands for Java's `null`. */
  datatype Option<+T> = None | Some(value: T)

  /** `Failure` stands for an exception the operation throws. */
  datatype Result<+T, +E> = Success(value: T) | Failure(error: E)
}
