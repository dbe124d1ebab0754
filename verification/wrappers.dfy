/** The optional value returned by the parsers and the file-type dispatch. */
module Wrappers {

  datatype Option<+T> = None | Some(value: T)

  /** Either a value or an error message. */
  datatype Result<+R> = Ok(value: R) | Err(message: string)
}
