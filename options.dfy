/** Failure-carrying values shared by the other modules. */
module Options {

  /** A value that may be absent: the model's stand-in for a Rust `Option`. */
  datatype Option<T> = None | Some(value: T)

  /** A value or an error: the model's stand-in for a Rust `Result`. */
  datatype Result<T, E> = Ok(value: T) | Err(error: E)
}
