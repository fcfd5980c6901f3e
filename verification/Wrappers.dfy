/** The outcome of an operation that the scripts may refuse with an exception. */
module Wrappers {
  datatype Result<+T> = Ok(value: T) | Err

  datatype Option<+T> = Some(value: T) | None
}
