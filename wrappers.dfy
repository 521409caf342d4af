/** Option stands in for a C# `null` reference and for a call that throws. */
module Wrappers {

  datatype Option<+T> = None | Some(value: T)
}
