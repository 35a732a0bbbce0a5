/** Optional values and results shared by the carousel modules. */
module Wrappers {

  /** An optional value: the audio handle that may not be attached yet. */
  datatype Option<+T> = None | Some(value: T)

  /** A computation that either produces a value or stops with an error. */
  datatype Result<+T, +E> = Ok(value: T) | Err(error: E)
}
