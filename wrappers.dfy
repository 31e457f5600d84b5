/** The conventional optional value, standing for Python's `None`-or-object. */
module Wrappers {
  datatype Option<+T> = None | Some(value: T)
}
