/** The optional value used wherever the source returns `nil` or reports "no match". */
module Wrappers {

  datatype Option<+T> = None | Some(value: T)
}
