/** Optional values, standing in for Go's nil interface values and nil errors. */
module Wrappers {

  datatype Option<+T> = None | Some(value: T)
}
