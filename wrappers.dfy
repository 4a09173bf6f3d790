/** The optional value used wherever the program can raise and recover. */
module Wrappers {

  datatype Option<+T> = None | Some(value: T)
}
