/** The exceptions the mixture model raises, and the option and result types that carry them. */
module Outcomes {

  datatype Option<+T> = None | Some(value: T)

  /** Python's ValueError, a failed `assert`, and the TypeError of a call with an unknown keyword. */
  datatype Error = ValueError(message: string) | AssertionError | TypeError(message: string)

  datatype Result<+T> = Ok(value: T) | Err(error: Error)
}
