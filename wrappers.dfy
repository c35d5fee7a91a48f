/** The usual optional-value datatype, used where the program holds `None`. */
module Wrappers {

  datatype Option<+T> = None | Some(value: T)
}
