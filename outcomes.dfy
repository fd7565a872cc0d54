/** Failure-carrying values shared by every part of the model. */
module Outcomes {

  datatype Option<+T> = None | Some(value: T)

  /** The two kinds of exception the monitoring loop tells apart: a keyboard
      interrupt ends the loop, every other exception is caught and the loop goes on. */
  datatype Exc = Interrupt | Error

  /** The result of a call into an external service: a value, or the exception it raised. */
  datatype Result<+T> = Ok(value: T) | Raised(exc: Exc)

  /** The result of a call that returns nothing useful. */
  datatype Outcome = Pass | Fail(exc: Exc)

  function Max(a: nat, b: nat): (m: nat)
    ensures m >= a && m >= b
    ensures m == a || m == b
  {
    if a < b then b else a
  }
}
