/** The optional value used where the crawler receives either something or nothing. */
module Wrappers {

  datatype Option<+T> = None | Some(value: T)
}
