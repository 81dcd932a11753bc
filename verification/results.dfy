/** Failure-carrying wrappers shared by the whole model. */
module Results {

  /** A value that may be absent (Java's `null` or a "not found" answer). */
  datatype Option<+T> = None | Some(value: T)

  /** Either a value or the error the rewrite pass raises instead of returning. */
  datatype Result<+T, +E> = Ok(value: T) | Err(error: E)
}
