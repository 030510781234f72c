/** Optional values: a missing table cell, a failed dictionary lookup. */
module Wrappers {

  datatype Option<+T> = None | Some(value: T)
}
