/** Optional values: `null`/`undefined` results of the source, and lookups that may miss. */
module Wrappers {

  datatype Option<+T> = None | Some(value: T)
}
