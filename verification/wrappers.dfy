/** Failure-carrying wrappers used throughout the model: `Option` for the
    renderer's `Option<T>` results and `Result` for operations that panic in
    the source (the panic becomes a `Failure`). */
module Wrappers {

  datatype Option<+T> = None | Some(value: T)

  datatype Result<+R, +E> = Success(value: R) | Failure(error: E)
}
