/** The optional value used wherever the program may or may not have something
    (a selected row, a parsed date, a statement that was sent). */
module Wrappers {

  datatype Option<+T> = None | Some(value: T)
}
