/** The optional value used for a spreadsheet cell that cannot be read and
    for a row that does not yield a nomination. */
module Wrappers {

  datatype Option<+T> = None | Some(value: T)
}
