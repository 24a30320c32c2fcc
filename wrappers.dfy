/** Optional values: JavaScript's `undefined` for an absent field or a failed lookup. */
module Wrappers {

  datatype Option<+T> = None | Some(value: T)
}
