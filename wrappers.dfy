/** Option and Result, the tagged values every handler of the model returns. */
module Wrappers {

  datatype Option<+T> = None | Some(value: T)

  /** A handler either succeeds with a payload or fails with one error kind. */
  datatype Result<+T, +E> = Ok(value: T) | Err(error: E)
}
