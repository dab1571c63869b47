/** Failure-carrying datatypes used throughout the model: an optional value
    (Java's nullable reference), a value-or-error result (a call that may
    throw), and a pass-or-fail outcome (a void call that may throw). */
module Wrappers {

  datatype Option<+T> = None | Some(value: T)

  datatype Result<+T, +E> = Ok(value: T) | Err(error: E)

  datatype Outcome<+E> = Pass | Fail(error: E)
}
