/** The outcome of a call into the modelled Python code: either the value it
    returns or the built-in exception it raises. */
module Outcomes {

  /** The built-in exceptions that the modelled operations can raise. */
  datatype Exception = KeyError | ValueError | TypeError | ZeroDivisionError

  /** A returned value, or a raised exception. */
  datatype Result<+T> = Ok(value: T) | Raise(error: Exception)
}
