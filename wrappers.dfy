/** Option and Result, the two failure-carrying types the game uses. */
module Wrappers {

  /** An optional value: the search's best move is absent at terminal positions. */
  datatype Option<+T> = None | Some(value: T)

  /** The outcome of an operation that may be refused with an error value. */
  datatype Result<+T, +E> = Ok(value: T) | Err(error: E)
}
