/** The optional value returned by both parsers. */
module Wrappers {

  datatype Option<+T> = None | Some(value: T)
}
