/** Failure-carrying values shared by the whole model: an optional value, a value-or-error
    result, and a pass-or-fail outcome for calls that produce nothing. */
module Outcomes {

  datatype Option<+T> = None | Some(value: T)

  datatype Result<+T, +E> = Ok(value: T) | Err(error: E)

  datatype Outcome<+E> = Pass | Fail(error: E)
}
