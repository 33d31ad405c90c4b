/** Failure-carrying values used in place of Python's None and exceptions. */
module Outcomes {

  /** A value that may be absent (Python's `None`). */
  datatype Option<+T> = None | Some(value: T)

  /** Either a value or the exception that was raised instead of producing it. */
  datatype Result<+T, +E> = Success(value: T) | Failure(error: E)

  /** The exception classes whose difference matters to the pipeline: `process_document`
      re-raises a `ValueError` and absorbs every other exception. */
  datatype Exc = ValueError | OtherError
}
