/** The Option type used wherever the C# code either produces a value or throws. */
module Wrappers {

  datatype Option<+T> = None | Some(value: T)
}
