/** Option and Result, used for the nullable fields and the thrown exceptions of the source. */
module Wrappers {

  datatype Option<+T> = None | Some(value: T)

  /** `Err` carries the message of the RuntimeException the source throws. */
  datatype Result<+T> = Ok(value: T) | Err(error: string)
}
