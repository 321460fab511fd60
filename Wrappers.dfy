/** The optional value used for JavaScript's `undefined`: a missing index,
    a `find` that matched nothing, a field that is absent from parsed data. */
module Wrappers {
  datatype Option<+T> = None | Some(value: T)
}
