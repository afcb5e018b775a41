/** The optional value used where the script may leave a variable unbound or find nothing. */
module Wrappers {

  datatype Option<+T> = None | Some(value: T)
}
