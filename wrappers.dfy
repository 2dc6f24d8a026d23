/** Optional values, used where the source answers "nothing here". */
module Wrappers {

  datatype Option<+T> = None | Some(value: T)
}
