/** The optional value used wherever a search may come back empty. */
module Wrappers {
  datatype Option<+T> = None | Some(value: T)
}
