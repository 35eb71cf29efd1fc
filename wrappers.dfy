/** Failure-compatible result types shared by the whole model. */
module Wrappers {

  /** A value that may be absent (Python's `None`). */
  datatype Option<T> = None | Some(value: T)

  /** The result of an operation that can raise: the value, or the error it raised. */
  datatype Result<T> = Success(value: T) | Failure(error: string)

  /** The result of a check that either passes or aborts with a message. */
  datatype Outcome = Pass | Fail(error: string)
}
