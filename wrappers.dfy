/** The Some/None datatype that `Option<T>` results of the list map to. */
module Wrappers {

  datatype Option<+T> = None | Some(value: T)

}
