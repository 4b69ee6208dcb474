/** The "no result" sentinel of the conversion library: Python's `None`. */
module Wrappers {

  datatype Option<+T> = None | Some(value: T)
}
