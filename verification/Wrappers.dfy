/** What a search may or may not have found. */
module Wrappers {
  datatype Option<T> = None | Some(value: T)
}
