/** The one result shape every component shares. */
module Wrappers {
  datatype Option<+T> = None | Some(value: T)
}
