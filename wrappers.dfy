// A stock optional-value datatype.

module Wrappers {

  datatype Option<+T> = None | Some(value: T)
}
