/** The optional value used for "parses as a number" and "separator found at". */
module Wrappers {
  datatype Option<+T> = None | Some(value: T)
}
