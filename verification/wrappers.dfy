/** Failure-carrying datatypes shared by the rest of the model. */
module Wrappers {

  /** A value that may be absent. */
  datatype Option<+T> = None | Some(value: T)

  /** Either a computed value or the error the Go code would return. */
  datatype Result<+T, +E> = Ok(value: T) | Err(error: E)
}
