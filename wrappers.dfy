/** The usual Some/None datatype, used where the upload code can fail. */
module Wrappers {

  datatype Option<+T> = None | Some(value: T)

}
