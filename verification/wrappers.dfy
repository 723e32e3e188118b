/** Optional values, standing in for the source's `T | null` and `undefined` results. */
module Wrappers {

  datatype Option<+T> = None | Some(value: T)
}
