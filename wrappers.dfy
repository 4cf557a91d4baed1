// Shared result types: Python's `None` and the exceptions the labs raise.

module Wrappers {

  datatype Option<T> = None | Some(value: T)

  /** The Python exceptions that the modelled code raises on its error paths. */
  datatype PyError =
    | ValueError
    | TypeError
    | IndexError
    | KeyError
    | ZeroDivisionError
    | NameError
    | AssertionError

  datatype Result<T> = Ok(value: T) | Err(error: PyError)
}
