/** Optional values: an absent snapshot, a failed poll, a placer that returned nothing. */
module Wrappers {

  datatype Option<+T> = None | Some(value: T)
}
