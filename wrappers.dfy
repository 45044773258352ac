/** The optional value used wherever the handler holds Python's `None` or a value. */
module Wrappers {

  datatype Option<+T> = None | Some(value: T)
}
