/** Option and Result, with the boxed error of the greeter reduced to its message text. */
module Wrappers {

  datatype Option<+T> = None | Some(value: T)

  /** A `Box<dyn Error>`: all the greeter ever does with one is format it, so only the text is kept. */
  datatype Failure = Failure(message: string)

  datatype Result<+T> = Ok(value: T) | Err(error: Failure)
}
