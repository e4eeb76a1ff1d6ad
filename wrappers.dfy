/** Optional values and results shared by the service and the two views. */
module Wrappers {

  /** A value that may be absent (JavaScript's `null` / `undefined`). */
  datatype Option<T> = None | Some(value: T)

  /** The value of a call that either returns or throws. */
  datatype Result<T, E> = Ok(value: T) | Err(error: E)
}
