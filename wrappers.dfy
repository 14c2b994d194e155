/** Optional values, used where the Java class returns null or throws. */
module Wrappers {

  datatype Option<+T> = None | Some(value: T)
}
