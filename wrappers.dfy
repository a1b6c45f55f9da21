/** Option and Outcome wrappers shared by the other modules. */
module Wrappers {

  /** A value that may be absent: JavaScript's NaN or undefined become None. */
  datatype Option<+T> = None | Some(value: T)

  /** The outcome of a check that either passes or fails with a message (a thrown Error). */
  datatype Outcome<+E> = Pass | Fail(error: E)
}
