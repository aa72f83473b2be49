/** Optional values, used where the source has `undefined` or a match that may fail. */
module Wrappers {

  datatype Option<+T> = None | Some(value: T)
}
