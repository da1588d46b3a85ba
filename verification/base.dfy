/** Option and Result wrappers, and the ways the script can stop with an exception. */
module Base {

  datatype Option<+T> = None | Some(value: T)

  datatype Result<+T, +E> = Ok(value: T) | Err(error: E)

  /** The exceptions the script can raise, each of which ends the program. */
  datatype Error =
    | HistoryLineMismatch        // `re.match(...)` gave None and `.groups()` raised AttributeError
    | InvalidLiteral(term: string) // `int(term)` raised ValueError
    | EndOfInput                 // `raw_input` raised EOFError
}
