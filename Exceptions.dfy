/** Outcomes of the operations that throw a standard C++ exception. */
module Exceptions {

  /** The exception classes thrown by the modelled code. */
  datatype Error = OutOfRange | OverflowError

  datatype Result<T> = Ok(value: T) | Err(error: Error)

  datatype Option<T> = None | Some(value: T)
}
