/** Optional values. In this model `None` stands for a blank spreadsheet
    cell, which pandas reads as NaN. */
module Wrappers {

  datatype Option<+T> = None | Some(value: T)
}
