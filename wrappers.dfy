/** Optional values: Python's None (or pandas' NaN) against a present value. */
module Wrappers {
  datatype Option<T> = None | Some(value: T)
}
