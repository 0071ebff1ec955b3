/**
 * How the library's operations end: with a value, with `null` (an absent value), or by
 * throwing one of the .NET argument exceptions, which carry the parameter name they name.
 */
module Outcomes {
  datatype Option<+T> = None | Some(value: T)

  datatype Exception =
    | ArgumentNullException(paramName: string)
    | ArgumentException(paramName: string)
    | ArgumentOutOfRangeException(paramName: string)
    | IndexOutOfRangeException

  datatype Outcome<+T> = Return(value: T) | Throw(exception: Exception)
}
