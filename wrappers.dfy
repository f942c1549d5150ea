/** Failure-carrying values shared by the modules of this model. */
module Wrappers {

  /** A value that may be missing: `None` stands for the source's `false`
      return, null pointer or NaN. */
  datatype Option<+T> = None | Some(value: T)
}
