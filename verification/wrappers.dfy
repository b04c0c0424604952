/** `Option` and `Result`, the two wrapper types the other modules share. */
module Wrappers {

  /** A value that may be absent: Ruby's `nil` is `None`. */
  datatype Option<+T> = None | Some(value: T)

  /** The outcome of an operation that either yields a value or raises. */
  datatype Result<+R, +E> = Success(value: R) | Failure(error: E)
}
