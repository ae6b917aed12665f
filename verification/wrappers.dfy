/** The optional value used wherever the program has `null` or a failed parse. */
module Wrappers {

  datatype Option<+T> = None | Some(value: T)

}
