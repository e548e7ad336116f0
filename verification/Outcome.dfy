/** What a call yields: a value, or the exception that the C++ code throws. */
module Outcome {
  datatype Result<+T> = Ok(value: T) | Thrown(message: string)

  datatype Option<+T> = None | Some(value: T)
}
