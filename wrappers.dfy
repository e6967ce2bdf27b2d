/** The optional value used for "a segment was yielded" and for a parse that may fail. */
module Wrappers {

  datatype Option<+T> = None | Some(value: T)
}
