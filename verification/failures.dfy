/**
 * The exceptions the modelled code can raise, and a result type that carries
 * either a value or the exception that would have been thrown instead.
 */
module Failures {

  datatype Error =
    | FormatError       // FormatException from int.Parse / double.Parse
    | OverflowError     // OverflowException: int.Parse out of range, or a negative array size
    | IndexOutOfRange   // IndexOutOfRangeException from an array or split-result index

  datatype Result<+T> = Ok(value: T) | Err(error: Error)
}
