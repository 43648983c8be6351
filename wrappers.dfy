/** The optional value used for C's NULL and for unset fields. */
module Wrappers {
  datatype Option<+T> = None | Some(value: T)
}
