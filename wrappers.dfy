/** The optional value used for absent files, failed parses and null references. */
module Wrappers {

  datatype Option<+T> = None | Some(value: T)
}
