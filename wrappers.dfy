/** Plain wrappers for the source's optional values and raised errors. */
module Wrappers {

  /** A value that may be absent (Python `None` or a missing key). */
  datatype Option<+T> = None | Some(value: T)

  /** The outcome of an operation that returns a value or raises an error. */
  datatype Result<+T, +E> = Success(value: T) | Failure(error: E)
}
