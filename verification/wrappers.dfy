/** Failure-carrying values: a missing value, and a result that is either a value or the error a
    Python `raise` would have signalled. */
module Wrappers {

  datatype Option<+T> = None | Some(value: T)

  datatype Result<+T, +E> = Ok(value: T) | Err(error: E)
}
