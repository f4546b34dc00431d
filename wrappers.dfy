/** Result and optional values standing in for the C++ exceptions and std::optional. */
module Wrappers {

  /** std::optional: a value or nothing. */
  datatype Option<T> = None | Some(value: T)

  /** The one exception kind the core throws: std::out_of_range with its message. */
  datatype Error = OutOfRange(message: string)

  /** A value, or the exception that would have been thrown instead. */
  datatype Result<T> = Ok(value: T) | Err(error: Error)
}
