/** Optional values and success-or-error results, used for the repository's
    lookups and for the controller's error paths. */
module Wrappers {

  /** A value that may be missing: the repository's Optional and Java's null. */
  datatype Option<+T> = None | Some(value: T)

  /** The outcome of a controller operation: the entity it returns, or the
      error it raises. */
  datatype Result<+R, +E> = Success(value: R) | Failure(error: E)
}
