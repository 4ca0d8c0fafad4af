/** Optional values: a read that may fail yields `None` instead of a value. */
module Wrappers {
  datatype Option<+T> = None | Some(value: T)
}
