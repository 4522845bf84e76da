/** Optional values and results, used for lookups that may return no row and for
    operations that may fail. */
module Wrappers {

  /** Zero or one value: a database reader that yields no row is `None`. */
  datatype Option<+T> = None | Some(value: T)

  /** The outcome of an operation that either completes or is stopped by an error. */
  datatype Result<+R, +E> = Success(value: R) | Failure(error: E)
}
