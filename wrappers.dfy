/** Failure-carrying results shared by every module of the model. */
module Wrappers {

  datatype Option<T> = None | Some(value: T)

  /** The kind of exception a Python operation of the routing tool raises. */
  datatype Exception =
    | ValueError
    | AssertionError
    | KeyError
    | IndexError
    | AttributeError
    | TypeError
    | Warning
    | ZeroDivisionError
      /** Raised from inside a library routine whose behaviour is not part of this model; its kind is not stated. */
    | LibraryError
      /** The supplied random draws ran out before the source's loop would have stopped. */
    | DrawsExhausted

  /** Either the value an operation returns or the exception it raises. */
  datatype Result<T> = Ok(value: T) | Err(error: Exception)

  /** The outcome of an operation that returns nothing but may raise. */
  datatype Outcome = Pass | Fail(error: Exception)
}
