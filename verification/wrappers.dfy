/**
 * Optional values, used for the source's `undefined` and for partial
 * lookups, and outcomes of operations that may throw.
 */
module Wrappers {

  datatype Option<+T> = None | Some(value: T)

  /** A value, or the message of the error thrown instead. */
  datatype Result<+T> = Success(value: T) | Failure(error: string)
}
