/** The stock Option type, shared by every component. */
module Wrappers {
  datatype Option<+T> = None | Some(value: T)
}
