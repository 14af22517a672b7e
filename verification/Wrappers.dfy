/** A value that may be missing: C's NULL, a call that never returns, a step that is not possible. */
module Wrappers {
  datatype Option<+T> = None | Some(value: T)
}
