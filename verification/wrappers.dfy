/** Option and Result, the return shapes of lookups and of operations that can fail. */
module Wrappers {

  datatype Option<+T> = None | Some(value: T)

  /** `Ok` carries the value an operation returns; `Err` the error it raises. */
  datatype Result<+R, +E> = Ok(value: R) | Err(error: E)
}
