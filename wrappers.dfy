/** Optional values: a Go nil reference, or a lookup that finds nothing. */
module Wrappers {

  datatype Option<+T> = None | Some(value: T)
}
