/** Optional values and results shared by the other modules. */
module Wrappers {

  /** An optional value: Kotlin's nullable types. */
  datatype Option<+T> = None | Some(value: T)

  /** A value or the exception that replaced it. */
  datatype Result<+T, +E> = Success(value: T) | Failure(error: E)

  /** Normal completion, or the exception that ended a call returning Unit. */
  datatype Outcome<+E> = Pass | Fail(error: E)
}
