/** Optional values and fallible results shared by every module. */
module Wrappers {

  /** A value that may be absent (Python's `None`, or a key missing from a dict). */
  datatype Option<+T> = None | Some(value: T)

  /** The outcome of an operation that either returns a value or raises. */
  datatype Result<+T, +E> = Ok(value: T) | Err(error: E)
}
