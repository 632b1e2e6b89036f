/** Optional and success-or-error results, used for the absent meal and the failed request. */
module Wrappers {

  /** Some value or nothing: the selector's `None`. */
  datatype Option<+T> = None | Some(value: T)

  /** A value or an error: the request's success or its "not found" failure. */
  datatype Result<+R, +E> = Success(value: R) | Failure(error: E)

  function Min(a: int, b: int): int
  {
    if a <= b then a else b
  }
}
