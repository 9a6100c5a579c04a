/** The JavaScript `null` of an unset field, as a value. */
module Wrappers {

  datatype Option<+T> = None | Some(value: T)
}
