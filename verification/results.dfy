/** Failure-compatible wrappers shared by the patch engine model. */
module Results {

  /** A value that may be absent, such as an optional `remove` anchor. */
  datatype Option<+T> = None | Some(value: T)

  /** The outcome of an operation that either returns a value or throws. */
  datatype Result<+T, +E> = Ok(value: T) | Err(error: E)
}
