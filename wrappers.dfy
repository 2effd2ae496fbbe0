/** Python's `None`-or-value, used for optional configuration values. */
module Wrappers {
  datatype Option<+T> = None | Some(value: T)
}
