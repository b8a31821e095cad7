/** Optional and fallible values. */
module Wrappers {

  /** A value that may be absent: JavaScript's `null`/`undefined`, or a query that found no row. */
  datatype Option<+T> = None | Some(value: T)

  /** The outcome of a request: a value, or the error the handler answers with. */
  datatype Result<+T, +E> = Success(value: T) | Failure(error: E)
}
