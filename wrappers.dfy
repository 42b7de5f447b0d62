/** Option stands for the store's `T | undefined` results and for nullable fields. */
module Wrappers {

  datatype Option<+T> = None | Some(value: T)
}
