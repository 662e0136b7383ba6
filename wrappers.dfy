/** The optional value that stands for Python's `None` in every field of the model. */
module Wrappers {
  datatype Option<+T> = None | Some(value: T)
}
