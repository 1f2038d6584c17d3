/** Option and Result, the model's stand-ins for Kotlin's nullable types and thrown exceptions. */
module Wrappers {

  /** A value that may be absent (a Kotlin `T?`). */
  datatype Option<+T> = None | Some(value: T)

  /** Either a value or the exception the source would throw instead of returning one. */
  datatype Result<+T, +E> = Success(value: T) | Failure(error: E)
}
