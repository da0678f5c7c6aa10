// The two result shapes the model uses for the source's (value, ok) and (value, error) pairs.
module Wrappers {
  datatype Option<+T> = None | Some(value: T)

  datatype Result<+T, +E> = Success(value: T) | Failure(error: E)
}
