/** Optional results, used where the Go code returns `(value, ok)` or a nil error. */
module Wrappers {
  datatype Option<+T> = None | Some(value: T)
}
