/** Failure channels of the parser and the Option/Result wrappers used to carry them. */
module Results {

  /** The ways a call into the parser can end without a schedule record.
      NoTimeFound is the parser's own `None` return; the others are the
      exceptions that escape from it. */
  datatype ParseError =
    | NoTimeFound      // no time-of-day pattern in the text
    | NumeralKeyError  // a numeral-table lookup with a missing key
    | TimeValueError   // an hour or minute outside the range of a time of day
    | TimeArgOverflow  // an hour or minute too wide for the C int that `time` reads it into
    | DateOverflow     // a date or date-time beyond the last representable day

  datatype Option<+T> = None | Some(value: T)

  datatype Result<+T> = Ok(value: T) | Err(error: ParseError) {
    predicate IsFailure() { Err? }

    function PropagateFailure<U>(): Result<U>
      requires Err?
    {
      Err(error)
    }

    function Extract(): T
      requires Ok?
    {
      value
    }
  }
}
