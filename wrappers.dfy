/** An optional value, for the places where the script either finds something or does not. */
module Wrappers {

  datatype Option<T> = None | Some(value: T)
}
