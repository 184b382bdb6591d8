/** Optional values: a file that may be missing, a selection that may be empty,
    a date that may not parse. */
module Wrappers {

  datatype Option<+T> = None | Some(value: T)
}
