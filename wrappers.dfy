/** Option, the stock failure-free wrapper used for lookups and parsers. */
module Wrappers {
  datatype Option<+T> = None | Some(value: T)
}
