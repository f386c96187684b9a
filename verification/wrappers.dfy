/** The two result shapes of the model: `Option` for a Java reference that
    may be null, and `Result` for a value or the exception thrown instead. */
module Wrappers {

  /** `None` is Java's `null`. */
  datatype Option<+T> = None | Some(value: T)

  /** `Failure` carries the exception that leaves the method. */
  datatype Result<+R, +E> = Success(value: R) | Failure(error: E)
}
