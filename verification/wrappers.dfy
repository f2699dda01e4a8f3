/** The optional value the model uses where a Python attribute may be `None`. */
module Wrappers {

  datatype Option<+T> = None | Some(value: T)
}
