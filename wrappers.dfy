/** Failure-carrying return types shared by the model. */
module Wrappers {

  datatype Option<+T> = None | Some(value: T)

  /** The outcome of a handler that produces a value or an error. */
  datatype Result<+T, +E> = Ok(value: T) | Err(error: E)

  /** The outcome of a handler that produces no value (HTTP 204) or an error. */
  datatype Outcome<+E> = Pass | Fail(error: E)
}
