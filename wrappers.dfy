/** Option and Result, used for the dictionary lookups and the HTTP error
    paths of the backend. */
module Wrappers {

  datatype Option<+T> = None | Some(value: T)

  datatype Result<+T, +E> = Success(value: T) | Failure(error: E)
}
