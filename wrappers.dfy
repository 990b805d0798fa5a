/** Optional values and fallible results shared by the asset pipeline model. */
module Wrappers {

  /** A value that may be missing (a Java `null` or an absent asset). */
  datatype Option<+T> = None | Some(value: T)

  /** The outcome of an operation that may throw: its value, or the exception's message. */
  datatype Result<+T> = Ok(value: T) | Failure(error: string)
}
