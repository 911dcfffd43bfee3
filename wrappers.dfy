/** Failure-carrying results shared by every module of the model. */
module Wrappers {

  /** A value that may be missing: what a validator returns for a rejected input. */
  datatype Option<+T> = None | Some(value: T)

  /** The outcome of an operation that may raise: `Err` names the exception. */
  datatype Result<+T, +E> = Ok(value: T) | Err(error: E)
}
