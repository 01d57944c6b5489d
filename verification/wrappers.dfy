/** Swift's `Optional`, used for the pending target page and for `as?` casts. */
module Wrappers {

  datatype Option<+T> = None | Some(value: T)
}
