/** Optional values, for the line the framer hands to the parser. */
module Wrappers {

  datatype Option<+T> = None | Some(value: T)
}
