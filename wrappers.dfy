/** A lookup that may find nothing (a missing map key, a config that does not exist). */
module Wrappers {

  datatype Option<+T> = None | Some(value: T)
}
