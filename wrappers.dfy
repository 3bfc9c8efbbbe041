/** Optional values: Go's nil pointers and nil commands. */
module Wrappers {
  datatype Option<+T> = None | Some(value: T)
}
