/** An optional value: a hardware read that may have failed, or a lookup that may find nothing. */
module Wrappers {

  datatype Option<+T> = None | Some(value: T)
}
