/** Optional values, standing in for JavaScript's absent (`undefined` or `null`) fields. */
module Wrappers {

  datatype Option<+T> = None | Some(value: T)
}
