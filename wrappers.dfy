/** Optional values and results with an error, as the parser hands them back. */
module Wrappers {

  /** A value that may be absent (the source's `null` / `undefined`). */
  datatype Option<+T> = None | Some(value: T)

  /** Either a value or an error (the source's thrown errors). */
  datatype Result<+T, +E> = Ok(value: T) | Err(error: E)
}
