// The optional value used wherever the C# code has "no result": a failed
// lookup, a missing shape, a form check that passed.

module Wrappers {
  datatype Option<T> = None | Some(value: T)
}
