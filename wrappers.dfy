/** Optional values, used for results that may be absent (a failed parse, a failed decode,
    no schedule entry firing). */
module Wrappers {
  datatype Option<+T> = None | Some(value: T)
}
