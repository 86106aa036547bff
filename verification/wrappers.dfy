/** Optional values, standing in for Python's `None` and for `-math.inf`. */
module Wrappers {

  datatype Option<+T> = None | Some(value: T)

}
