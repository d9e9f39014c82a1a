/** Optional values: a present result or the source's NULL / failure return. */
module Wrappers {

  datatype Option<+T> = None | Some(value: T)

}
