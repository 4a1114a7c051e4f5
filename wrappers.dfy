/** Nullable values: a column that may hold NULL, or PHP's `null`. */
module Wrappers {
  datatype Option<+T> = None | Some(value: T)
}
