/** The optional-value datatype the rest of the model uses for .NET references that may be null. */
module Wrappers {

  datatype Option<+T> = None | Some(value: T)
}
