/** The optional value used where the modelled code yields either a value or `null`. */
module Wrappers {

  datatype Option<+T> = None | Some(value: T)
}
