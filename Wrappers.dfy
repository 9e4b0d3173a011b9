/** Option and Result, for values that may be absent and steps that may raise. */
module Wrappers {

  datatype Option<+T> = None | Some(value: T)

  /** `Err` carries the message of the exception the step raised. */
  datatype Result<+T, +E> = Ok(value: T) | Err(error: E)
}
