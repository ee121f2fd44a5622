/** The optional value used wherever the source returns `null`, `undefined`
    or `-1` for "not found". */
module Wrappers {
  datatype Option<+T> = None | Some(value: T)
}
