/** Optional values: an element or attribute that the page may not have. */
module Wrappers {

  datatype Option<+T> = None | Some(value: T)
}
