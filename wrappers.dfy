/** Optional values, for DOM queries that may find nothing. */
module Wrappers {

  datatype Option<+T> = None | Some(value: T)
}
