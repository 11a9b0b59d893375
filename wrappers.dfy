/** Optional values and results carrying an error, for the `None` filter and
    the exception raised when a request line cannot be parsed. */
module Wrappers {

  datatype Option<+T> = None | Some(value: T)

  datatype Result<+R, +E> = Success(value: R) | Failure(error: E)
}
