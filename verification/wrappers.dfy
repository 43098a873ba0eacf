/** An optional value standing for a possibly-NULL pointer. */
module Wrappers {

  /** `None` stands for a NULL pointer result, `Some(v)` for a valid one. */
  datatype Option<+T> = None | Some(value: T)
}
