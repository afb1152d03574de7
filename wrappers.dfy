/** Optional values, for the places where the source gets `None` or catches a `ValueError`. */
module Wrappers {

  datatype Option<+T> = None | Some(value: T)
}
