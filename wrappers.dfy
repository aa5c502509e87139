/** Failure-carrying values used across the model: Option for Python's
    `None`-or-value, Result for a value or a raised exception. */
module Wrappers {

  datatype Option<+T> = None | Some(value: T)

  datatype Result<+T, +E> = Ok(value: T) | Err(error: E)
}
