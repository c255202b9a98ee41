/** The two carriers the whole model shares. */
module Wrappers {
  /** A nullable SQL or JSON value. */
  datatype Option<+T> = None | Some(value: T)

  /** The outcome of an operation that can raise. */
  datatype Result<+T, +E> = Ok(value: T) | Err(error: E)
}
