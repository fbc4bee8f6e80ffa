/** Failure-carrying wrappers shared by the other modules. */
module Wrappers {

  /** A value that may be absent (TypeScript's `T | undefined`). */
  datatype Option<+T> = None | Some(value: T)

  /** The outcome of an operation that may throw: its value, or the thrown message. */
  datatype Result<+R, +E> = Success(value: R) | Failure(error: E)
}
