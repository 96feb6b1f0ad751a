/** Option and Result values shared by the models: Rust's `Option` and `Result`,
    and the panics the source raises, which the models return as a `Failure`. */
module Wrappers {

  datatype Option<+T> = None | Some(value: T)

  datatype Result<+T, +E> = Success(value: T) | Failure(error: E)
}
