/** Optional values: Python's `None` and the error outcome of a lookup. */
module Wrappers {
  datatype Option<+T> = None | Some(value: T)
}
