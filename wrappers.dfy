/** Failure-compatible wrappers used across the model: Rust's `Option`,
    `Result` and the `Result<(), E>` of an operation that returns nothing. */
module Wrappers {

  datatype Option<+T> = None | Some(value: T)

  datatype Result<+T, +E> = Ok(value: T) | Err(error: E)

  /** `Result<(), E>`: either the operation went through or it failed with an error. */
  datatype Outcome<+E> = Pass | Fail(error: E)
}
