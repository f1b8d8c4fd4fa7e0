/** Optional values and the two shapes of "completes or throws" used by the model. */
module Wrappers {

  /** A value that may be absent: C#'s `null` for a reference or nullable type. */
  datatype Option<+T> = None | Some(value: T)

  /** An operation that returns a value or throws. */
  datatype Result<+R, +E> = Success(value: R) | Failure(error: E)

  /** An operation that returns nothing (`void`) or throws. */
  datatype Outcome<+E> = Pass | Fail(error: E)
}
