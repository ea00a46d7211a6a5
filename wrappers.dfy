/** Optional values, used for lookups in a props object and for readings that can fail. */
module Wrappers {

  datatype Option<T> = None | Some(value: T)

}
