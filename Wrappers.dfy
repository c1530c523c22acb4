/** The optional value used for a spreadsheet cell that may be absent. */
module Wrappers {

  datatype Option<+T> = None | Some(value: T)
}
