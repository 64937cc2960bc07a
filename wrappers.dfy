/** The optional value used for results that the Python code signals with `None`. */
module Wrappers {

  datatype Option<+T> = None | Some(value: T)
}
