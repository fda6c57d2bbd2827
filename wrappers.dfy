/** Failure-carrying wrappers shared by every module of the model. */
module Wrappers {

  datatype Option<+T> = None | Some(value: T)

  /** The outcome of an operation that the modelled code can abandon by
      raising (Python) or throwing (JavaScript). */
  datatype Result<+T, +E> = Ok(value: T) | Err(error: E)
}
