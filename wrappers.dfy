/** Option type shared by the generator and the hint search. */
module Wrappers {
  datatype Option<T> = None | Some(value: T)
}
