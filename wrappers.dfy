/** `Option` and `Result`, used across the model. */
module Wrappers {

  /** A value that may be absent: the model of a pointer that may be NULL. */
  datatype Option<+T> = None | Some(value: T)

  /** A value or the kernel's negative error code. */
  datatype Result<+T> = Ok(value: T) | Err(code: int)
}
