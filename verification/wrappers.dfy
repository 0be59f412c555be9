/** The optional result of a computation: the model of a `T | null` return. */
module Wrappers {

  datatype Option<+T> = None | Some(value: T)
}
