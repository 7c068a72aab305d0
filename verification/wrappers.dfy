/** The optional value used wherever the router returns `Option<_>`. */
module Wrappers {

  datatype Option<+T> = None | Some(value: T)
}
