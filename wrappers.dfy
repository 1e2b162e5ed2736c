/** The optional value used for a dictionary field that may be absent. */
module Wrappers {
  datatype Option<+T> = None | Some(value: T)
}
