/** Optional values: a nullable database column or a missing dictionary key. */
module Optional {

  datatype Option<+T> = None | Some(value: T)

  /** The error-or-value result of an operation that can raise. */
  datatype Result<+T, +E> = Success(value: T) | Failure(error: E)
}
