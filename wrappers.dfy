/** Optional values and results with an error, for the places where the dashboard script
    either has nothing to show or would raise. */
module Wrappers {

  datatype Option<T> = None | Some(value: T)

  datatype Result<T, E> = Success(value: T) | Failure(error: E)
}
