/** The optional value a C function signals by returning NULL or false. */
module Wrappers {

  datatype Option<+T> = None | Some(value: T)
  {
    predicate IsSome() { Some? }
  }
}
