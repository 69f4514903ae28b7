/** Option and Result, used for the outcomes of the external world and for the
    exceptions the converter lets escape. */
module Wrappers {

  datatype Option<+T> = None | Some(value: T)

  datatype Result<+T, +E> = Ok(value: T) | Err(error: E)
}
