/** The optional value used where the game returns `null`. */
module Wrappers {

  datatype Option<+T> = None | Some(value: T)
}
