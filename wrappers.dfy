/** Optional values: stands in for JavaScript's `undefined` (and for NaN where
    an arithmetic result is not a number). */
module Wrappers {

  datatype Option<+T> = None | Some(value: T)
}
