/** Option and Result, the error path of the operations that can fail. */
module Wrappers {

  datatype Option<+T> = None | Some(value: T)

  /** What an operation reports where the source raises an exception. */
  datatype Error =
    | InvalidShape      // unknown structuring-element name
    | InvalidDirection  // slant direction other than 'left' / 'right'
    | TooFewSides       // polygon with fewer than three sides
    | BadArguments      // wrong number or kind of positional arguments

  datatype Result<+T> = Ok(value: T) | Err(error: Error)
}
