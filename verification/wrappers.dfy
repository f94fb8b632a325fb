/** An optional value: the zero state of a fermion action, or an attribute
    of the block that has not been set yet. */
module Wrappers {
  datatype Option<T> = None | Some(value: T)
}
