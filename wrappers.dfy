/** An optional value, shared by the modules of this model. */
module Wrappers {

  /** A value that may be absent: the model's reading of JavaScript's `null`. */
  datatype Option<+T> = None | Some(value: T)
}
