/** Outcomes of the library's operations.

    The PHP class reports two kinds of failure: it throws (an `Exception`
    for a malformed literal or a prefix length out of range, a `TypeError`
    when `dechex` is handed a field that is not a number), and the CIDR
    helpers quietly return an empty value. The first is `Result.Err`; the
    second is modelled where it occurs, with `Option.None` or the empty
    string, and is never mixed with the first. */
module Wrappers {

  datatype Option<+T> = None | Some(value: T)

  /** The reasons the class throws. */
  datatype Error =
    | FormatError   // a literal that does not match its grammar
    | RangeError    // a prefix length outside [0,32] or [0,128]
    | TypeError     // a dotted-decimal field that is not a decimal numeral

  datatype Result<+T> = Ok(value: T) | Err(error: Error)
}
