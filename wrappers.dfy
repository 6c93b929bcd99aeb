/** Optional values: stand in for the nullable `Node*` results of the filesystem. */
module Wrappers {

  datatype Option<+T> = None | Some(value: T)
}
