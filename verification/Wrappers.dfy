/** Optional values, used wherever the program holds a nullable pointer. */
module Wrappers {
  datatype Option<+T> = None | Some(value: T)
}
