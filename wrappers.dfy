/** Optional values and the .NET exceptions the billing code can raise, as values. */
module Wrappers {

  datatype Option<+T> = None | Some(value: T)

  /** The exception classes the modelled code throws (or lets escape) on bad input. */
  datatype Fault =
    | FormatError          // FormatException: a string that is not a number, a date or a month name
    | OverflowError        // OverflowException: a number outside the Int32 range
    | ArgumentOutOfRange   // ArgumentOutOfRangeException: a bad calendar date, a list index, Substring
    | NullReference        // NullReferenceException
    | InvalidOperation     // InvalidOperationException: Nullable<T>.Value of a null
    | DivideByZero         // DivideByZeroException: int / 0
    | GeneralError(message: string)  // `throw new Exception(message)`

  datatype Result<+T> = Ok(value: T) | Err(fault: Fault)
}
