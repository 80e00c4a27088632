/** The partial results used across the model. */
module Wrappers {

  /** A value that may be missing: a parse that can fail. */
  datatype Option<+T> = None | Some(value: T)
}
