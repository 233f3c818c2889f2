/** How a call into the configuration library can end, and values that may be missing. */
module Outcomes {

  /** `Thrown` is a configor exception, `Aborted` a failed CONFIGOR_ASSERT,
      `Overflowed` a signed 64-bit overflow (undefined in C++) and `Hangs` a
      loop that is never left. */
  datatype Failure = Thrown | Aborted | Overflowed | Hangs

  /** Usable with `:-`. */
  datatype Outcome<+T> = Ok(value: T) | Err(error: Failure) {

    predicate IsFailure() {
      Err?
    }

    function PropagateFailure<U>(): Outcome<U>
      requires Err?
    {
      Err(error)
    }

    function Extract(): T
      requires Ok?
    {
      value
    }
  }

  datatype Option<+T> = None | Some(value: T)
}
