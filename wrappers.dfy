/** Optional values: `null`/`undefined` in the app's state become None. */
module Wrappers {

  datatype Option<+T> = None | Some(value: T)
}
