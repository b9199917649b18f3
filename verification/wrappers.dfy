/** The optional value used for the Go type switches' "no value" branch and for the writer model. */
module Wrappers {
  datatype Option<+T> = None | Some(value: T)
}
