/** Success/failure values and the failures the calculator reports. */
module Results {

  /** A computed value, or the failure that stopped the computation. */
  datatype Result<T, E> = Ok(value: T) | Err(error: E)

  /** A check that either passes or fails with an error. */
  datatype Outcome<E> = Pass | Fail(error: E)

  /** The conditions under which the calculator raises instead of producing a result. */
  datatype Error =
    | InvalidNumeral(input: string)  // the operand does not match the numeral pattern
    | DivisionByZero                 // the divisor decodes to 0
    | OutOfRange(value: int)         // the computed integer lies outside [MinRoman, MaxRoman]
    | EmptyMemory                    // erasing from an empty history
}
