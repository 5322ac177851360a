/** The absent-or-present outcome of a lookup; "absent" is a normal result, never an error. */
module Wrappers {
  datatype Option<+T> = None | Some(value: T)
}
