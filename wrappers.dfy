/** The usual optional value, used for "the first row that fails a check, if any". */
module Wrappers {

  datatype Option<T> = None | Some(value: T)
}
