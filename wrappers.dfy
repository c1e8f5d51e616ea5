/** Rust's `Option` and `Result`, as the values the modelled code passes around. */
module Wrappers {

  /** `Option<T>`: a value that may be absent. */
  datatype Option<+T> = None | Some(value: T)

  /** `Result<T, E>`: a value or an error. */
  datatype Result<+T, +E> = Ok(value: T) | Err(error: E)
}
