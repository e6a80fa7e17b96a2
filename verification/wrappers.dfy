/** Python's `None` and raised validation errors. */
module Wrappers {

  /** A value that may be absent (Python's `None`). */
  datatype Option<+T> = None | Some(value: T)

  /** Either a computed value or the error a validator raised. */
  datatype Result<+R, +E> = Success(value: R) | Failure(error: E)
}
