/** Option and Result, used for Python's None and for exceptions. */
module Wrappers {

  datatype Option<+T> = None | Some(value: T)

  /** `Err` stands for an exception raised by the code the value came from. */
  datatype Result<+T, +E> = Ok(value: T) | Err(error: E)
}
