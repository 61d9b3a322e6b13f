/** Optional values: `None` stands for the Python `None` a failed call returns. */
module Wrappers {

  datatype Option<+T> = None | Some(value: T)
}
