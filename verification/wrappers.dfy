/** The optional value a SELECT ... fetchone() gives back: a row or nothing. */
module Wrappers {
  datatype Option<+T> = None | Some(value: T)
}
