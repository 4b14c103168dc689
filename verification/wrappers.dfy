/** Failure-carrying wrappers shared by every parser of the model. */
module Wrappers {

  /** A value that may be absent (JavaScript `null`/`undefined`, Python `None`). */
  datatype Option<+T> = None | Some(value: T)

  /** The outcome of an operation that can throw: a value or the thrown message. */
  datatype Result<+T> = Success(value: T) | Failure(error: string)
}
