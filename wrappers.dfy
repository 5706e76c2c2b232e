/** Optional values: a dictionary key or keyword argument that may be absent. */
module Wrappers {

  datatype Option<+T> = None | Some(value: T)
}
