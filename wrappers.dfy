/** The optional value used for "a page whose extraction raises, if any". */
module Wrappers {

  datatype Option<+T> = None | Some(value: T)
}
