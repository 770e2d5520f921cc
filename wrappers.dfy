/** Option and Result, and the exceptions the modelled Python code raises. */
module Wrappers {

  datatype Option<+T> = None | Some(value: T)

  /** The Python exceptions that the modelled operations can raise. */
  datatype Error =
    | ValueError(message: string)
    | KeyError(key: string)
    | IndexError
    | ZeroDivisionError

  datatype Result<+T> = Ok(value: T) | Err(error: Error)
}
