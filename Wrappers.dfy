/** Optional values and results that carry an error message instead of a thrown `Error`. */
module Wrappers {

  datatype Option<+T> = None | Some(value: T)

  /** A value, or the message of the `Error` the source would throw. */
  datatype Result<+T> = Ok(value: T) | Err(error: string)
}
