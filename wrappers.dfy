/** The usual optional value: a query that may find nothing (an element, a row, a list index). */
module Wrappers {
  datatype Option<+T> = None | Some(value: T)
}
