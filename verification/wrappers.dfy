/** Failure-carrying datatypes shared by every module of the model:
    `Option` stands for a JavaScript value that may be `null`/`undefined`,
    `Result` for an Effect that either succeeds with a value or fails with
    a typed error. */
module Wrappers {

  datatype Option<+T> = None | Some(value: T)

  datatype Result<+T, +E> = Ok(value: T) | Err(error: E)

  /** An Effect that succeeds with no value (`Effect<void, E>`) or fails. */
  datatype Outcome<+E> = Pass | Fail(error: E)
}
