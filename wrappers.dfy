/** Option and Result: the "null" the buffer returns when it is empty, and the
    exception its constructor throws for an invalid capacity. */
module Wrappers {

  /** A value that may be absent (JavaScript's `null`). */
  datatype Option<T> = None | Some(value: T)

  /** Either a value or the message of the error raised instead. */
  datatype Result<T, E> = Ok(value: T) | Err(error: E)
}
