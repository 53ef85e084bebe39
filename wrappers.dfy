/** Optional values: a Python `None` or a raised `ValueError` becomes `None`. */
module Wrappers {

  datatype Option<+T> = None | Some(value: T)
}
