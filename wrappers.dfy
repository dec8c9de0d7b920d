/** Optional values: an attribute, a lookup or a handler outcome that may be absent. */
module Wrappers {

  datatype Option<+T> = None | Some(value: T)

}
