/** The optional value used where the tool's code returns nothing or raises. */
module Wrappers {

  datatype Option<+T> = None | Some(value: T)
}
