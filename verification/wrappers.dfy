/** The optional value used for JavaScript's `null`/`undefined`: a caller may
    pass no array at all, and the filters then return nothing at all. */
module Wrappers {

  datatype Option<+T> = None | Some(value: T)
}
