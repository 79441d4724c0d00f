/** The optional-value type shared by the modules of this model. */
module Wrappers {

  /** A value that may be absent: an unset struct field, a slot not yet filled. */
  datatype Option<+T> = None | Some(value: T)
}
