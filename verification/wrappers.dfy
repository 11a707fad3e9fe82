/** The optional value used wherever the modelled code may hold `undefined` or `null`. */
module Wrappers {

  datatype Option<+T> = None | Some(value: T)
}
