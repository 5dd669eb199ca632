/** Option and Outcome: JavaScript's `T | null` and a thrown-or-returned error. */
module Wrappers {

  /** A value that may be absent (`T | null` in the source). */
  datatype Option<+T> = None | Some(value: T)

  /** A computation that either yields a value or throws an error. */
  datatype Result<+T, +E> = Success(value: T) | Failure(error: E)

  /** An operation without a return value (`Promise<void>`) that resolves or rejects. */
  datatype Outcome<+E> = Pass | Fail(error: E)
}
