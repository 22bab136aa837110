/** Option and Result values shared by the decoder and the scope queries. */
module Wrappers {

  /** A value that may be absent; `None` plays the role of a Java `null` result. */
  datatype Option<+T> = None | Some(value: T)

  /** The outcome of an operation that can raise an error instead of returning. */
  datatype Result<+T, +E> = Ok(value: T) | Err(error: E)
}
