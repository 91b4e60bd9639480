/** Optional values and results with an error, shared by the bookmark modules. */
module Wrappers {

  /** An attribute that may be absent, or a value that may be missing. */
  datatype Option<+T> = None | Some(value: T)

  /** The outcome of an operation that can raise: a value, or the error it raises. */
  datatype Result<+T, +E> = Ok(value: T) | Err(error: E)
}
