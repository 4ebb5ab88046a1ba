/** Option and Result: the values the histogram code returns, or the exception it raises instead. */
module Wrappers {

  /** A value that may be absent. */
  datatype Option<T> = None | Some(value: T)

  /** Either a result or the exception the source would raise instead. */
  datatype Result<T, E> = Ok(value: T) | Err(error: E)
}
