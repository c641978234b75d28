/** The optional value used wherever the source returns `None` or gives up. */
module Wrappers {
  datatype Option<+T> = None | Some(value: T)
}
