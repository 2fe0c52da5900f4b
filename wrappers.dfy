/** Failure-carrying results. Every error of the guard pipeline is a Python
    ValueError whose message is shown to the caller verbatim, so the failure
    side carries the exact message text. */
module Wrappers {

  datatype Option<+T> = None | Some(value: T)

  datatype Result<+T> = Ok(value: T) | Err(error: string)
}
