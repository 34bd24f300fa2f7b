/** Option and Result, for the partial operations of the model. */
module Wrappers {

  datatype Option<+T> = None | Some(value: T)

  /** A computation that either succeeds with a value or fails with an error,
      standing for a Python call that returns or raises. */
  datatype Result<+T, +E> = Ok(value: T) | Err(error: E)
}
