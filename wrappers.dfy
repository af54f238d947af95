/** Optional values, used where the source reports "no error" or "one error". */
module Wrappers {
  datatype Option<+T> = None | Some(value: T)
}
