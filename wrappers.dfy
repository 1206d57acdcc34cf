/** Option, used here for lookups that may miss and keys that may publish nothing. */
module Wrappers {

  datatype Option<+T> = None | Some(value: T)
}
