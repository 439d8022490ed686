/** Optional values and results with an error. */
module Wrappers {

  datatype Option<+T> = None | Some(value: T)

  /** The outcome of something that may fail with an error message. */
  datatype Result<+T> = Ok(value: T) | Err(message: string)
}
