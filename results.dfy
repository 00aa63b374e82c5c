/** Outcomes of operations that the source can abort with an exception. */
module Results {

  /** A present value, or a null reference. */
  datatype Option<+T> = None | Some(value: T)

  /** A value, or the message of the exception that aborted the computation. */
  datatype Result<+T> = Ok(value: T) | Err(message: string)

  /** Completion of a void operation, or the message of the exception that aborted it. */
  datatype Outcome = Pass | Fail(message: string)
}
