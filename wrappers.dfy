/** Python's `None` beside a value, for nullable SQL columns and optional widgets. */
module Wrappers {

  datatype Option<+T> = None | Some(value: T)
}
