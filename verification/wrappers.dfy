/** Optional values, and results and outcomes that carry an error instead of raising it. */
module Wrappers {

  datatype Option<+T> = None | Some(value: T)

  datatype Result<+R, +E> = Success(value: R) | Failure(error: E)

  /** The end of an operation that returns nothing: normal, or with an error. */
  datatype Outcome<+E> = Pass | Fail(error: E)
}
