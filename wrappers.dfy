/** Optional values: the controller's `T | null` selection; `None` also stands for `undefined`. */
module Wrappers {
  datatype Option<T> = None | Some(value: T)
}
