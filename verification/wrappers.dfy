/** Optional values and results with an error message, used across the model. */
module Wrappers {

  datatype Option<+T> = None | Some(value: T)

  /** A computation that either yields a value or stops with a user-facing message. */
  datatype Result<+T> = Ok(value: T) | Err(error: string)
}
