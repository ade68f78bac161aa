/** Optional values: a missing mask, a number that does not parse. */
module Wrappers {
  datatype Option<+T> = None | Some(value: T)
}
