/** Optional values, standing for PHP's `false` / `null` returns. */
module Wrappers {
  datatype Option<+T> = None | Some(value: T)
}
