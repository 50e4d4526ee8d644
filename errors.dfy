/** The outcome of an operation that the original aborts with an exception. */
module Errors {
  datatype Result<T> = Ok(value: T) | Err(msg: string)
}
