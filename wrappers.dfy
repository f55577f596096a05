/** The optional value used for dictionary look-ups that may miss. */
module Wrappers {

  datatype Option<T> = None | Some(value: T)

}
