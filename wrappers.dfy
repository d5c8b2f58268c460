/** A value that may be missing: an empty spreadsheet cell, or an absent session key. */
module Wrappers {
  datatype Option<+T> = None | Some(value: T)
}
