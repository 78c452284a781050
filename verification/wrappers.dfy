/** Optional values: a database NULL, a missing dictionary entry, or Python's None. */
module Wrappers {

  datatype Option<+T> = None | Some(value: T)
}
