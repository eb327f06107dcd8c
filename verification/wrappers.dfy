/** The optional value used wherever the program tests for `undefined`
    (no logged-in user, no progress record, no quiz option selected). */
module Wrappers {

  datatype Option<+T> = None | Some(value: T)
}
