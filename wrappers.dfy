/** Optional values: the model's stand-in for `null`, `undefined` and absent entries. */
module Wrappers {

  datatype Option<+T> = None | Some(value: T)
}
