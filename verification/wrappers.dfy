/** Failure-carrying values: the model's stand-in for Java's `null` returns and thrown exceptions. */
module Wrappers {

  /** `None` plays the part of a `null` reference. */
  datatype Option<+T> = None | Some(value: T)

  /** `Failure` plays the part of an error the program reports or throws. */
  datatype Result<+T, +E> = Success(value: T) | Failure(error: E)
}
