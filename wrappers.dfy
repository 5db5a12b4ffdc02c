/** Option and Result: the two ways the modelled code reports absence and failure. */
module Wrappers {

  /** A value that may be missing (Rust's `Option`). */
  datatype Option<+T> = None | Some(value: T)

  /** The outcome of an operation that can fail (a Rust `panic!`, `expect` or `todo!`). */
  datatype Result<+T, +E> = Success(value: T) | Failure(error: E)
}
