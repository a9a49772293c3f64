/** Failure-compatible wrappers used across the model: an absent value
    (a pandas NaN / a Python None) and a computation that may raise. */
module Wrappers {

  datatype Option<+T> = None | Some(value: T)

  datatype Result<+T, +E> = Ok(value: T) | Err(error: E)
}
