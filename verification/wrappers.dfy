/** The optional value used wherever the Python code produces `None`. */
module Wrappers {
  datatype Option<+T> = None | Some(value: T)
}
