/** Result shapes shared by the modules. */
module Wrappers {
  datatype Option<+T> = None | Some(value: T)

  /** The outcome of an operation whose source asserts can fire: either
      it completes with a value or the process aborts. */
  datatype Outcome<+T> = Done(value: T) | Abort
}
