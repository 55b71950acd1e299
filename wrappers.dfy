/** Optional values, standing for the `null` / `undefined` results of the extension. */
module Wrappers {
  datatype Option<+T> = None | Some(value: T)
}
