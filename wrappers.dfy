/** Optional values: a missing key, a search that finds nothing, an unset anchor. */
module Wrappers {
  datatype Option<+T> = None | Some(value: T)
}
