/** The optional value used for every operation of the program that can fail
    (a `ValueError` or `OverflowError`, an empty probe result, a missing file). */
module Wrappers {
  datatype Option<+T> = None | Some(value: T)
}
