/** The optional value used wherever a value may be absent. */
module Wrappers {

  datatype Option<+T> = None | Some(value: T)
}
