/** Optional values and results-or-errors, shared by the loader's modules. */
module Wrappers {

  /** A value that may be absent (`undefined` in the source). */
  datatype Option<+T> = None | Some(value: T)

  /** A value, or the error an operation throws instead of returning one. */
  datatype Result<+T, +E> = Success(value: T) | Failure(error: E)
}
