/** Option, the one wrapper the model needs for lookups that may find nothing. */
module Wrappers {

  datatype Option<+T> = None | Some(value: T)
}
