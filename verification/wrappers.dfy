/** Optional values: a cell that may be null (NaN) in the spreadsheet, or a remote reply that may be missing. */
module Wrappers {

  datatype Option<+T> = None | Some(value: T)
}
