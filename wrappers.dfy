/** Optional values: PHP's `null` return in place of a value. */
module Wrappers {

  datatype Option<+T> = None | Some(value: T)
}
