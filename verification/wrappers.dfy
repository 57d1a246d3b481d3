/** Optional values, used for the record fields the list endpoint may send as `null`. */
module Wrappers {

  datatype Option<+T> = None | Some(value: T)

}
