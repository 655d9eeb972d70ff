/** Optional values, for C results that may be NULL or missing. */
module Wrappers {

  datatype Option<T> = None | Some(value: T)
}
