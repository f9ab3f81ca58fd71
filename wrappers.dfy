/** Optional values: what the script represents with `undefined`. */
module Wrappers {

  datatype Option<+T> = None | Some(value: T)
}
