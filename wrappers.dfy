/** Optional values, for the places where the Python code returns nothing or raises. */
module Wrappers {

  datatype Option<+T> = None | Some(value: T)
}
