/** Optional values: a result that may be absent, as `null` is in the page's state. */
module Wrappers {
  datatype Option<+T> = None | Some(value: T)
}
