/** Optional values, for the places where the program may find nothing. */
module Wrappers {

  datatype Option<+T> = None | Some(value: T)
}
