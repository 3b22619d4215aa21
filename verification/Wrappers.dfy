/** Results of computations that may be abandoned. */
module Wrappers {
  datatype Option<+T> = None | Some(value: T)
}
