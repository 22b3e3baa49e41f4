/** The optional value used for JavaScript's `null`/`undefined` fields and
    for results that may be absent. */
module Wrappers {

  datatype Option<+T> = None | Some(value: T)
}
