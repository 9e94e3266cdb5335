/** Optional values and failing results, standing in for the source's `null`
    returns and for the exception raised when the root of an empty tree is asked for. */
module Options {

  /** `None` plays the part of a Java `null` reference. */
  datatype Option<+T> = None | Some(value: T)

  /** A value, or the error that the source raises instead of returning one. */
  datatype Result<+T, +E> = Success(value: T) | Failure(error: E)
}
