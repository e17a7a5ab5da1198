/** Optional values: a store key that may be absent. */
module Wrappers {

  /** `None` is an absent key or field, `Some(v)` a present one holding `v`. */
  datatype Option<+T> = None | Some(value: T)
}
