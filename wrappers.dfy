/** Option and Result, for lookups that may fail and for the error the
    source raises where the model completes normally. */
module Wrappers {
  datatype Option<T> = None | Some(value: T)

  datatype Result<T, E> = Success(value: T) | Failure(error: E)
}
