// The optional-value and result wrappers used by the models.
module Wrappers {

  datatype Option<+T> = None | Some(value: T)

  /** A value, or an error carrying Go's error message. */
  datatype Result<+T> = Ok(value: T) | Err(message: string)
}
