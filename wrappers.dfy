/** Optional values: None stands for a property the caller left out (`undefined`). */
module Wrappers {

  datatype Option<+T> = None | Some(value: T)
}
