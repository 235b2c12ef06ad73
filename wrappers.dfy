/** The optional value used wherever the converter's JavaScript yields a value or `null`. */
module Wrappers {

  datatype Option<+T> = None | Some(value: T)
}
