/** The optional value used where the program returns `None` or skips an item. */
module Wrappers {

  datatype Option<+T> = None | Some(value: T)
}
