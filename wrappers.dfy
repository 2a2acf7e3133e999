/** Optional values, for SQL results that may be NULL or absent. */
module Wrappers {
  datatype Option<+T> = None | Some(value: T)
}
