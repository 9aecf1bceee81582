/** Failure-compatible result types shared by every module of the board model. */
module Wrappers {

  /** A value that may be absent: Java's `null` / `Optional.empty()` and TypeScript's `null`. */
  datatype Option<+T> = None | Some(value: T)

  /** The outcome of a service operation: a value, or the exception it throws. */
  datatype Result<+T, +E> = Success(value: T) | Failure(error: E)
}
