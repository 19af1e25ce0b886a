/** Optional values: the model's stand-in for a hook that returns `undefined`. */
module Wrappers {

  datatype Option<+T> = None | Some(value: T)

}
