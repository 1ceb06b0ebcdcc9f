/** Optional values: a C pointer that may be NULL becomes an Option. */
module Wrappers {

  datatype Option<+T> = None | Some(value: T)
}
