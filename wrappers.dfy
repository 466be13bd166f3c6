/** A value that may be missing: pandas' NaN in a column that was never assigned. */
module Wrappers {

  datatype Option<+T> = None | Some(value: T)

}
