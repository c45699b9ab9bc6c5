/** Failure-carrying values used where the application either has no value
    (a `null` query result) or stops with an alert instead of a value. */
module Wrappers {

  /** A value that may be missing, as JavaScript's `null` / `undefined`. */
  datatype Option<+T> = None | Some(value: T)

  /** Either the value an operation produced or the error that stopped it. */
  datatype Result<+T, +E> = Ok(value: T) | Err(error: E)
}
