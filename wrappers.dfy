/** Failure-carrying values used for the report's error paths. */
module Wrappers {

  /** A value that may be missing (Odoo's `False`, a failed library call). */
  datatype Option<+T> = None | Some(value: T)

  /** Either a value or the error that was raised instead of it. */
  datatype Result<+R, +E> = Success(value: R) | Failure(error: E)
}
