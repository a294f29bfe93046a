/** Optional values: a missing cell, an absent rule or an unmatched column. */
module Wrappers {
  datatype Option<+T> = None | Some(value: T)
}
