/** Optional values and results shared by the crypto and network models. */
module Wrappers {

  /** An optional value: Go's `(value, ok)` return pairs. */
  datatype Option<T> = None | Some(value: T)

  /** A value or an error: Go's `(value, err)` return pairs. */
  datatype Result<T, E> = Success(value: T) | Failure(error: E)
}
