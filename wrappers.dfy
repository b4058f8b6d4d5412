/** Option and Result wrappers, and the error kinds the modelled code distinguishes. */
module Wrappers {

  datatype Option<+T> = None | Some(value: T)

  /** Why an operation did not produce a value. */
  datatype Error =
    | KeyNotFound              // the transactional store holds nothing under the key
    | Undecodable              // the stored item is not an encoding of the expected entity
    | Refused(reason: string)  // the code itself returned an error with this message
    | Crashed(reason: string)  // the Go code would panic at this point

  datatype Result<+T> = Ok(value: T) | Err(error: Error)
}
