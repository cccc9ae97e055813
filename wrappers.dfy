/** Optional values and error results shared by the modules of the model. */
module Wrappers {
  datatype Option<T> = None | Some(value: T)

  /** A thrown JavaScript `Error` carries its message. */
  datatype Result<T> = Ok(value: T) | Err(message: string)
}
