/** Failure-compatible values used in place of JavaScript's `null`, `undefined`
    and thrown exceptions. */
module Wrappers {

  /** A value that may be absent: an unset attribute, a `null` URL. */
  datatype Option<+T> = None | Some(value: T)

  /** The outcome of a foreign call that may throw: its value, or the error's message. */
  datatype Result<+R, +E> = Success(value: R) | Failure(error: E)
}
