/** Failure-carrying results used across the model: `Option` for a value
    that may be absent, `Result` for a value or the reason it is missing. */
module Wrappers {

  datatype Option<+T> = None | Some(value: T)

  datatype Result<+R, +E> = Success(value: R) | Failure(error: E)
}
