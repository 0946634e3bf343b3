/** Optional values, used for every "returns None" path of the system. */
module Wrappers {

  datatype Option<+T> = None | Some(value: T)

}
