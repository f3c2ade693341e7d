/** The optional value used wherever the script passes `null` or an absent attribute. */
module Wrappers {

  datatype Option<+T> = None | Some(value: T)
}
