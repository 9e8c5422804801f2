/** Failure-compatible wrappers shared by the decoder and the reconstructor. */
module Wrappers {

  /** A value that may be absent: Python's `Optional[str]`. */
  datatype Option<+T> = None | Some(value: T)

  /** The outcome of an operation that can raise: `Ok` carries the value, `Err` the message. */
  datatype Result<+T> = Ok(value: T) | Err(message: string)
}
