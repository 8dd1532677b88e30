/** Option and Result, the failure-carrying values the rest of the model returns
    where the Go program would panic or report an error. */
module Wrappers {

  datatype Option<+T> = None | Some(value: T)

  datatype Result<+T, +E> = Ok(value: T) | Err(error: E)
}
