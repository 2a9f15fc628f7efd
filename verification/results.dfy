/** Failure-carrying wrappers used by the catalog model in place of Python's
    `None` returns and raised exceptions. */
module Results {

  /** A value that may be absent: Python's `None` or a found object. */
  datatype Option<+T> = None | Some(value: T)

  /** The outcome of an operation that either succeeds with a value or
      fails with an error (an exception in the program). */
  datatype Result<+T, +E> = Ok(value: T) | Err(error: E)
}
