/** The optional value used for `null` fields and for dates that do not parse. */
module Wrappers {

  datatype Option<+T> = None | Some(value: T)

}
