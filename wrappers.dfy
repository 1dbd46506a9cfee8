/** Option and Result values used in place of Python's None and raised exceptions. */
module Wrappers {

  /** A value that may be absent: a SQL NULL, or Python's None. */
  datatype Option<T> = None | Some(value: T)

  /** The outcome of an operation that either returns a value or raises. */
  datatype Result<T, E> = Ok(value: T) | Err(error: E)
}
