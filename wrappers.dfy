/** Failure-compatible result types shared by the model. */
module Wrappers {

  /** A value that may be absent: Rust's `Option<T>`. */
  datatype Option<+T> = None | Some(value: T)

  /** A Rust `Result<T, E>`. */
  datatype Result<+T, +E> = Success(value: T) | Failure(error: E)

  /** The outcome of an operation that returns nothing but may abort. */
  datatype Outcome<+E> = Pass | Fail(error: E)
}
