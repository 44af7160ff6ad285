/// The optional-value wrapper used throughout the model: a .NET reference that may be
/// null, a dictionary lookup that may miss, an enum parse that may fail.
module Wrappers {

  datatype Option<+T> = None | Some(value: T)
}
