/** The optional value returned by lookups that may find nothing
    (a JavaScript `null` result or a `-1` index). */
module Wrappers {

  datatype Option<+T> = None | Some(value: T)
}
