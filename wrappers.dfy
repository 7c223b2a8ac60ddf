/** Optional values, standing for Go's nil-able results (a nil error, a missing value). */
module Wrappers {

  datatype Option<+T> = None | Some(value: T)
}
