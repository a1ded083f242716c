/** The optional result of a search that may come back empty (Python's
    `None`). */
module Wrappers {

  datatype Option<+T> = None | Some(value: T)
}
