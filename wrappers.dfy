/** The optional value used wherever the source returns `null` or may find nothing. */
module Wrappers {

  datatype Option<+T> = None | Some(value: T)

}
