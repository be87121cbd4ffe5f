/** The optional value used for a payload that may be omitted. */
module Wrappers {

  datatype Option<+T> = None | Some(value: T)
}
