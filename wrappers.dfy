/** The Option datatype that stands for a nullable reference result. */
module Wrappers {

  /** `None` is the source's `null`. */
  datatype Option<+T> = None | Some(value: T)
}
