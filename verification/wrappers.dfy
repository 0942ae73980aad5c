/** The optional value used wherever the program looks something up and may find nothing. */
module Wrappers {

  datatype Option<+T> = None | Some(value: T)
}
