/** Python's `None`-or-value results and raised exceptions. */
module Wrappers {
  /** A value that may be Python's `None`. */
  datatype Option<T> = None | Some(value: T)

  /** A call that either returns a value or raises an exception. */
  datatype Outcome<T> = Raised | Value(v: T)
}
