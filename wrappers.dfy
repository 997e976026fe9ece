/** Optional values, used for the widget's lazily filled cache entries and for parsers that can fail. */
module Wrappers {
  datatype Option<+T> = None | Some(value: T)
}
