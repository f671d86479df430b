/** Failure-carrying wrappers shared by the queue and graph models. */
module Results {

  /** The outcome of an operation that either succeeds with a value or raises. */
  datatype Result<+T, +E> = Ok(value: T) | Err(error: E)

  /** Python's `None`-or-value, as used for the "no incoming edge yet" sentinel in Prim. */
  datatype Option<+T> = None | Some(value: T)
}
