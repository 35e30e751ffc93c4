/** The optional value used wherever the source returns `null`/`undefined` or an item. */
module Wrappers {
  datatype Option<+T> = None | Some(value: T)
}
