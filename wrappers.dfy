/** Failure-carrying results shared by the models of both source files. */
module Wrappers {

  datatype Option<+T> = None | Some(value: T)

  /** Either the value an operation returns or the exception it raises. */
  datatype Result<+T, +E> = Ok(value: T) | Err(error: E)
}
