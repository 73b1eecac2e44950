/** Optional values, the exceptions the modelled Python code can raise, and
    a result type that carries either a value or one of those exceptions. */
module Wrappers {

  datatype Option<+T> = None | Some(value: T)

  /** The Python exception classes that the modelled code raises or lets propagate. */
  datatype PyError =
    | ValueError          // bad literal, wrong number of split fields, negative row index
    | TypeError           // a call with arguments of the wrong type
    | IndexError          // a list index out of range
    | FileNotFoundError   // the path is not a regular file
    | InvalidOperation    // decimal.Decimal given a string that is not a number
    | OverflowError       // a value out of range of its numeric or date type
    | Overflow            // decimal.Overflow: a result past the decimal context's Emax

  /** The outcome of a Python call: a value, or the exception it raised. */
  datatype Result<+T> = Ok(value: T) | Err(error: PyError)
}
