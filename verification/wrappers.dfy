/** Failure-compatible wrappers used across the model: an optional value and
    a result that is either a value or the error that aborted the computation. */
module Wrappers {

  datatype Option<+T> = None | Some(value: T)

  datatype Result<+R, +E> = Success(value: R) | Failure(error: E)
}
