/** Option and Result values shared by every module of the model. */
module Wrappers {

  /** A value that may be absent (Python's `None`, Rust's `Option`). */
  datatype Option<+T> = None | Some(value: T)

  /** The outcome of an operation that can fail with an error of type `E`
      (a raised exception in Python, an `Err` in Rust). */
  datatype Result<+T, +E> = Ok(value: T) | Err(error: E)
}
