/** Failure-compatible result types shared by the modules of the model. */
module Wrappers {

  /** An optional value. */
  datatype Option<+T> = None | Some(value: T)

  /** A value or an error, the model of Rust's `Result<T, E>`. */
  datatype Result<+T, +E> = Ok(value: T) | Err(error: E)

  /** Success or an error with no value, the model of `io::Result<()>`. */
  datatype Outcome<+E> = Pass | Fail(error: E)
}
