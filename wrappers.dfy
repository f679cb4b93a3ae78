/** Failure-carrying wrappers shared by every module of the model. */
module Wrappers {

  /** A value that may be absent: JavaScript's `undefined` / `null`, Python's `None`. */
  datatype Option<+T> = None | Some(value: T)

  /** The result of an operation that can throw: `Err` carries what was thrown. */
  datatype Result<+T, +E> = Ok(value: T) | Err(error: E)
}
