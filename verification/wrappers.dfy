/** The optional-value datatype shared by the other modules. */
module Wrappers {

  /** A value that may be absent: Python's `None` or a found index. */
  datatype Option<+T> = None | Some(value: T)
}
