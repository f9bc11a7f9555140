/** The two result shapes the other modules share. */
module Outcomes {

  datatype Option<+T> = None | Some(value: T)

  /** A Go function's (value, error) pair: exactly one of the two is there. */
  datatype Result<+T, +E> = Ok(value: T) | Err(error: E)
}
