/** Optional values, used for the store's optional `icon` argument. */
module Wrappers {

  /** A value that may be absent (`undefined` in the store's signature). */
  datatype Option<+T> = None | Some(value: T)
}
