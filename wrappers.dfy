/** Python's `None`, as the searches return it when no path exists. */
module Wrappers {

  datatype Option<+T> = None | Some(value: T)
}
