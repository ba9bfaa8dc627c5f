/** Optional values and results with an error branch. */
module Wrappers {

  /** A value that may be absent, as an optional property is in the source. */
  datatype Option<T> = None | Some(value: T)

  /** The outcome of an operation that can fail with an error of type `E`. */
  datatype Result<T, E> = Ok(value: T) | Err(error: E)
}
