/** Optional values and error results shared by the models. */
module Wrappers {

  /** A value that may be absent: Python's `None` or a value. */
  datatype Option<+T> = None | Some(value: T)

  /** A computed value, or the exception the Python code raises instead. */
  datatype Result<+T, +E> = Success(value: T) | Failure(error: E)
}
