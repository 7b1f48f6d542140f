/** Optional values, used for partial results (a pattern that does not match here,
    a loop that has not finished within its fuel). */
module Wrappers {
  datatype Option<+T> = None | Some(value: T)
}
