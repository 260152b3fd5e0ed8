/** Failure-carrying datatypes used throughout the model: `Option` for the
    Python `None`-or-value arguments and `Result` for operations that may raise. */
module Wrappers {

  /** A value that may be absent (Python's `None`). */
  datatype Option<+T> = None | Some(value: T)

  /** The outcome of an operation that either returns a value or raises. */
  datatype Result<+R, +E> = Success(value: R) | Failure(error: E)
}
