/** A value that may be missing: what a function of the source returns when it can also fail. */
module Wrappers {
  datatype Option<T> = None | Some(value: T)
}
