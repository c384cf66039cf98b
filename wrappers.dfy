/** Option and Result values shared by the modules of this project. */
module Wrappers {

  datatype Option<T> = None | Some(value: T)

  /** The outcome of an operation that can fail with a message. */
  datatype Result<T> = Ok(value: T) | Err(error: string)

}
