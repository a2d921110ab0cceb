/** Option and Result, the two failure-carrying shapes the model uses. */
module Wrappers {

  datatype Option<+T> = None | Some(value: T)

  /** A computation that either yields a value or fails with an error
      (the model's stand-in for a thrown `Error`). */
  datatype Result<+R, +E> = Ok(value: R) | Err(error: E)
}
