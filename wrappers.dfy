/** The conventional Some/None datatype, used for capabilities that may fail. */
module Wrappers {

  datatype Option<+T> = None | Some(value: T)
}
