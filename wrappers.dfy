/** Optional values: an HTTP header or a registry lookup that may be absent. */
module Wrappers {

  datatype Option<+T> = None | Some(value: T)
}
