/** The optional value used for "no move found". */
module Wrappers {
  datatype Option<+T> = None | Some(value: T)
}
