/** Option and Result types shared by the parser modules. */
module Wrappers {

  /** A value that may be absent; stands for a nil pointer. */
  datatype Option<+T> = None | Some(value: T)

  /** Either a value or an error; stands for a call that may panic. */
  datatype Result<+T, +E> = Ok(value: T) | Err(error: E)
}
