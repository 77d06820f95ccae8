/** Rust's `Option` and `Result`, as used by every operation of the model. */
module Results {

  datatype Option<+T> = None | Some(value: T)

  datatype Result<+T, +E> = Ok(value: T) | Err(error: E)

  /** Rust's `()` for operations that return `Result<()>`. */
  datatype Unit = Unit
}
