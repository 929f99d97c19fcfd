/** The optional value returned by the reverse lookups of this project. */
module Wrappers {

  datatype Option<+T> = None | Some(value: T)
}
