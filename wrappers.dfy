/** Option and Result, the two failure-carrying datatypes the model uses for
    Go's `(value, ok)` and `(value, error)` return pairs. */
module Wrappers {

  datatype Option<+T> = None | Some(value: T)

  datatype Result<+T, +E> = Success(value: T) | Failure(error: E)
}
