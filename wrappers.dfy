/** Optional values: Python's `None` and JavaScript's `null` on the model's side. */
module Wrappers {

  datatype Option<+T> = None | Some(value: T)
}
