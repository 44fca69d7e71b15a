/** Optional values: `None` stands for JavaScript's `null` (and, for a search
    result, for the `undefined` a function returns when it falls off its end). */
module Wrappers {
  datatype Option<+T> = None | Some(value: T)
}
