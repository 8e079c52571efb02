/** The optional value used for a file that may be absent or unreadable. */
module Wrappers {

  datatype Option<+T> = None | Some(value: T)
}
