/** Failure-compatible wrappers used across the model: a Rust `Option`, a Rust
    `Result`, and an `Outcome` for operations that return `Result<(), E>`. */
module Outcomes {

  datatype Option<T> = None | Some(value: T)

  datatype Result<T, E> = Ok(value: T) | Err(error: E)

  datatype Outcome<E> = Pass | Fail(error: E)
}
