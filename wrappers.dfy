/** The optional value used for the source's NULL results and for inputs a reader cannot parse. */
module Wrappers {

  datatype Option<T> = None | Some(value: T)
}
