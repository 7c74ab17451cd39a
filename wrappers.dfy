/** Failure-compatible wrappers used across the model: a value that may be
    absent (Python's None) and the outcome of an operation that may raise. */
module Wrappers {

  datatype Option<+T> = None | Some(value: T)

  datatype Result<+T, +E> = Ok(value: T) | Err(error: E)
}
