/** Optional values, used for "no occurrence" results and for absent props. */
module Wrappers {

  datatype Option<+T> = None | Some(value: T)
}
