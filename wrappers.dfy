/** Option and Result, the two failure-carrying values the rest of the model returns. */
module Wrappers {

  datatype Option<+T> = None | Some(value: T)

  /** Ok carries a value; Err carries the reason the program would have stopped. */
  datatype Result<+T, +E> = Ok(value: T) | Err(error: E)
}
