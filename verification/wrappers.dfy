/** Failure-compatible result types shared by the rest of the model. */
module Wrappers {

  /** An optional value: a regular-expression match that may be absent. */
  datatype Option<+T> = None | Some(value: T)

  /** The outcome of an operation that can stop the program with an error. */
  datatype Result<+R, +E> = Ok(value: R) | Err(error: E)
}
