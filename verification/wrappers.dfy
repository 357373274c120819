/** Optional values: `None` stands for a JavaScript value that is absent or not a number. */
module Wrappers {

  datatype Option<+T> = None | Some(value: T)
}
