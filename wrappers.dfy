/** Optional values, used in place of the nullable node pointers of the source. */
module Wrappers {

  datatype Option<+T> = None | Some(value: T)

}
