/** The optional value that `extract_avg` returns: a number, or Python's `None`. */
module Wrappers {

  datatype Option<+T> = None | Some(value: T)
}
