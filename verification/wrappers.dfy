/** The optional value used where the shell returns `null`. */
module Wrappers {

  datatype Option<+T> = None | Some(value: T)
}
