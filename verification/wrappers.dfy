/** Optional values, used where the C code returns NULL or a failed conversion. */
module Wrappers {

  datatype Option<+T> = None | Some(value: T)
}
