/** Optional values, as JavaScript's `null` results are used by the library. */
module Wrappers {
  datatype Option<+T> = None | Some(value: T)
}
