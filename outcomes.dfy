/** Explicit outcome values for the stages that raise exceptions in the program. */
module Outcomes {

  /** A value that may be absent (Python's `None`). */
  datatype Option<+T> = None | Some(value: T)

  /** A stage that yields a value or fails with the exception's message. */
  datatype Result<+T> = Ok(value: T) | Err(error: string)

  /** A stage that yields nothing or fails with the exception's message. */
  datatype Outcome = Pass | Fail(error: string)
}
