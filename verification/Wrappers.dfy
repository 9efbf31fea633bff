/** Optional values: a pointer that may be NULL, a result that may be missing. */
module Wrappers {
  datatype Option<+T> = None | Some(value: T)
}
