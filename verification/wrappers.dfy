/** Failure-carrying results for the guard clauses of the sparse utilities. */
module Wrappers {

  /** An optional value; used for Python's `None` default arguments and for NaN results. */
  datatype Option<+T> = None | Some(value: T)

  /** The exceptions the modelled code raises. */
  datatype Error =
    | ValueError(message: string)
    | IndexError

  /** Either a value or the exception the source would raise instead. */
  datatype Result<+T> = Ok(value: T) | Err(error: Error)
}
