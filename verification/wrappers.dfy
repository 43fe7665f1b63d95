/** Failure-carrying datatypes shared by every module of the model. */
module Wrappers {

  /** A value that may be absent (the Java code's `null`). */
  datatype Option<T> = None | Some(value: T)

  /** Either a value or an error kind. */
  datatype Result<T, E> = Ok(value: T) | Err(error: E)
}
