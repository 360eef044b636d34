/** The optional value the library code returns where it would return `None`. */
module Wrappers {

  datatype Option<+T> = None | Some(value: T)
}
