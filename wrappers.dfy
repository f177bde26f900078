/** Optional values, used where the source returns a "not found" or failure result. */
module Wrappers {

  datatype Option<+T> = None | Some(value: T)

}
