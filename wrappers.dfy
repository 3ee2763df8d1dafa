/** The optional value used where the shell returns NULL or "not found". */
module Wrappers {

  datatype Option<T> = None | Some(value: T)
}
