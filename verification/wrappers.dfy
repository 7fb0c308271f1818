/** Option and Result, the failure-carrying values the model uses in place of
    Go's nil values and (value, error) returns. */
module Wrappers {
  datatype Option<+T> = None | Some(value: T)

  datatype Result<+T, +E> = Success(value: T) | Failure(error: E)
}
