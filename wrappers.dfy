/** Option and outcome values shared by the modules of the model. */
module Wrappers {

  /** A value that may be absent: stands for a nullable pointer. */
  datatype Option<+T> = None | Some(value: T)

  /** The result of an operation that may abort the whole run (an
      assertion or a fatal-error call in the program). */
  datatype Outcome = Done | Aborted(reason: string)
}
