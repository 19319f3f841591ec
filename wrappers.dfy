/** Swift's optional `T?`. */
module Wrappers {

  datatype Option<+T> = None | Some(value: T)
}
