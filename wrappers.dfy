/** Optional values: a MongoDB document or `null`, a response field present or absent. */
module Wrappers {

  datatype Option<+T> = None | Some(value: T)
}
