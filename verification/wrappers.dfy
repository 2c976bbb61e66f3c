/** Optional values: the model's stand-in for JavaScript's `undefined`/`null`
    and Python's "no entry". */
module Wrappers {
  datatype Option<+T> = None | Some(value: T)
}
