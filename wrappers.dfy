/** A value that may be missing: a pandas cell that holds NaN is `None`. */
module Wrappers {

  datatype Option<+T> = None | Some(value: T)
}
