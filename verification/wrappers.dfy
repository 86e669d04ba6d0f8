/** Optional values: a JavaScript variable that is either `undefined` or holds a value. */
module Wrappers {

  datatype Option<+T> = None | Some(value: T)
}
