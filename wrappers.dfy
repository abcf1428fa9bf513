/** Failure-carrying values shared by the whole model. */
module Wrappers {

  /** Python's `None` versus a present value. */
  datatype Option<+T> = None | Some(value: T)

  /** The value of a computation, or the exception that aborted it. */
  datatype Result<+T> = Ok(value: T) | Err(error: string)
}
