/** Wrappers used across the model: `Option` for values the JavaScript source
    may leave `undefined`, `Result` for operations that may throw. */
module Wrappers {

  datatype Option<+T> = None | Some(value: T)

  datatype Result<+T, +E> = Success(value: T) | Failure(error: E)
}
