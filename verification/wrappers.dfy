/** The outcome of a lookup and the outcome of an operation that can be refused. */
module Wrappers {
  datatype Option<+T> = None | Some(value: T)
  datatype Result<+T> = Ok(value: T) | Err
}
