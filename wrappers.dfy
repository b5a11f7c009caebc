/** Option and Result, the two wrappers the rest of the model returns. */
module Wrappers {

  /** A value that may be absent: a missing file, a missing key, a failed parse. */
  datatype Option<+T> = None | Some(value: T)

  /** The outcome of an operation that may raise: `Err` carries what was raised. */
  datatype Result<+T, +E> = Ok(value: T) | Err(error: E)
}
