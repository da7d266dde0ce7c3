/** Optional values: a cell that pandas holds as NaN is `None` here. */
module Wrappers {

  datatype Option<+T> = None | Some(value: T)
}
