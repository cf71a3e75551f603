/** The optional value the model uses for Python's `None` results and caught exceptions. */
module Wrappers {

  datatype Option<+T> = None | Some(value: T)
}
