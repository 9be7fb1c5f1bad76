/** Option and Result, the shapes Rust's `Option` and `Result` take in this model. */
module Outcomes {

  datatype Option<+T> = None | Some(value: T)

  datatype Result<+T, +E> = Ok(value: T) | Err(error: E)
}
