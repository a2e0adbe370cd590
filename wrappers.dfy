/** The optional and error-carrying results shared by the parsers. */
module Wrappers {

  datatype Option<+T> = None | Some(value: T)

  /** `Err` carries the exception the Python code would raise. */
  datatype Result<+T, +E> = Ok(value: T) | Err(error: E)
}
