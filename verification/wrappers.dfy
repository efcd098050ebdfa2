/** The optional value used where the modelled code returns `None` or skips an input. */
module Wrappers {

  datatype Option<+T> = None | Some(value: T)
}
