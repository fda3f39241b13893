/** The optional value used for the locator's out-parameter results. */
module Wrappers {

  datatype Option<+T> = None | Some(value: T)
}
