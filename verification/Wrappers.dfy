/** The two failure-carrying datatypes shared by every module. */
module Wrappers {
  datatype Option<+T> = None | Some(value: T)

  datatype Result<+T, +E> = Ok(value: T) | Err(error: E)

  /** Outcome of a recogniser that starts at some index: a value and the index just after it. */
  datatype Parsed<+T> = Fail | Done(value: T, end: nat)
}
