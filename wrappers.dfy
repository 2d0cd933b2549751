/** Optional values: `None` stands for JavaScript's `undefined` (and for a NaN result). */
module Wrappers {
  datatype Option<+T> = None | Some(value: T)
}
