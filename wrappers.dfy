/** Optional values, used for the nullable selections of the component state. */
module Wrappers {

  datatype Option<+T> = None | Some(value: T)
}
