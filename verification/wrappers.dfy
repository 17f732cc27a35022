/** Wrappers shared by the model: `Option` for lookups that
    can miss, `Result` for the stages of the command that can abort. */
module Wrappers {

  /** A value that may be absent (JavaScript's `undefined`, or `-1` from `findIndex`). */
  datatype Option<+T> = None | Some(value: T)

  /** The outcome of a stage that either produces a value or aborts with an error. */
  datatype Result<+R, +E> = Ok(value: R) | Err(error: E)
}
