/** Optional values: JavaScript's `null`/`undefined` results become None. */
module Wrappers {

  datatype Option<+T> = None | Some(value: T)
}
