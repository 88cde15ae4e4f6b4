/** Failure-carrying results shared by the two block parsers. */
module Results {

  /** The only failure the parsers can raise: Python's IndexError, raised when a
      line lacks a field the parser indexes unconditionally. `line` is the
      0-based index of the offending line in the input. */
  datatype ParseError = IndexError(line: nat)

  datatype Result<+T> = Ok(value: T) | Err(error: ParseError)

  datatype Option<+T> = None | Some(value: T)
}
