/** Result shapes shared by every component of the model. */
module Wrappers {

  datatype Option<+T> = None | Some(value: T)

  /** How a C function ends: it returns, or an assertion or a PANIC ends the process. */
  datatype Outcome<+T> = Returned(value: T) | Aborted
}
