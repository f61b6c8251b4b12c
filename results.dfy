/**
 * The failures the engine reports by throwing, as values.
 */
module Results {

  /** The conditions under which `BigNatModule` throws. */
  datatype Failure =
    | DivideByZero      // `divmod` with a zero divisor
    | Overflow          // `toUInt32` / `toUInt64` of a value that does not fit
    | FormatError       // `ofString` of an empty string or a non-digit character
    | ProductTooLarge   // `encodingGivenResultBits` beyond the largest encoding

  datatype Result<T> = Ok(value: T) | Err(error: Failure)
}
