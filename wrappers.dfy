/** The optional value used wherever the source uses `null` for "absent". */
module Wrappers {

  datatype Option<+T> = None | Some(value: T)
}
