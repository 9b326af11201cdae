/** Option and Result, the failure-carrying values used across the model
    (a Python `None`, an attribute that was never set, a raised exception). */
module Wrappers {

  datatype Option<+T> = None | Some(value: T)

  datatype Result<+T, +E> = Ok(value: T) | Err(error: E)
}
