/** The optional value used for "no match" and "file absent". */
module Wrappers {

  datatype Option<T> = None | Some(value: T)
}
