/** Optional values: Go's nil pointers and (value, error) pairs whose error is swallowed. */
module Wrappers {

  datatype Option<+T> = None | Some(value: T)
}
