/** Failure-carrying results for the operations whose source raises an exception. */
module Results {

  /** Either the value an operation computes or the error it raises. */
  datatype Result<+T, +E> = Ok(value: T) | Err(error: E)
}
