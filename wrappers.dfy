// The optional value the store returns for "a row" or "no row" (Python's None).
module Wrappers {

  datatype Option<+T> = None | Some(value: T)
}
