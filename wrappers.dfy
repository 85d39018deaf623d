/** Optional values, for Python's `None` and for keys a record may lack. */
module Wrappers {

  datatype Option<+T> = None | Some(value: T)
}
