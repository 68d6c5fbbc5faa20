/** The optional value shared by the argument checks and the synchronization pass. */
module Wrappers {

  datatype Option<T> = None | Some(value: T)
}
