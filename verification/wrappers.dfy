/** Optional values (a missing cell in a table) and results (a computation that may raise). */
module Wrappers {

  /** A value that may be absent, like a NaN/None cell of a DataFrame. */
  datatype Option<+T> = None | Some(value: T)

  /** The outcome of a step that either returns a value or raises an error. */
  datatype Result<+R, +E> = Success(value: R) | Failure(error: E)
}
