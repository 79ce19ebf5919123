/** The optional-value datatype shared by the other modules. */
module Wrappers {

  /** A value that may be absent, standing for JavaScript's `null`. */
  datatype Option<+T> = None | Some(value: T)
}
