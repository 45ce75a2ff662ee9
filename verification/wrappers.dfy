/** Optional values, standing in for the nullable pointers of the firmware. */
module Wrappers {

  /** `None` plays the role of a NULL pointer, `Some(v)` of a valid one. */
  datatype Option<+T> = None | Some(value: T)
}
