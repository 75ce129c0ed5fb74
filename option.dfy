/** The optional value used for reads that may run out of data. */
module Opt {
  datatype Option<+T> = None | Some(value: T)
}
