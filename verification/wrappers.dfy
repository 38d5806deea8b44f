/** Optional values: the model's stand-in for a JavaScript call that either
    yields a value or throws (and for a stored value that may be empty). */
module Wrappers {

  datatype Option<+T> = None | Some(value: T)
}
