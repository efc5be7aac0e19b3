/** Optional values, for operations of the firmware that can fail. */
module Wrappers {

  datatype Option<+T> = None | Some(value: T)
}
