/** Option type used wherever the source returns NULL or an error sentinel. */
module Wrappers {

  datatype Option<+T> = None | Some(value: T)
}
