/** The optional value used where the source has `?:` fields and `null` results. */
module Wrappers {

  datatype Option<+T> = None | Some(value: T)
}
