/** The conventional optional value, used for query and body parameters that may be absent. */
module Wrappers {

  datatype Option<+T> = None | Some(value: T)
}
