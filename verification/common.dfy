/** Failure-carrying wrappers shared by the rule engine. */
module Common {

  /** A value that may be absent, as Python's `None`. */
  datatype Option<+T> = None | Some(value: T)

  /** The outcome of a step that may raise: its value, or the error it raised. */
  datatype Result<+T, +E> = Success(value: T) | Failure(error: E)
}
