/** The optional value used for views the dashboard may leave out and for parse results. */
module Wrappers {

  datatype Option<+T> = None | Some(value: T)
}
