/** The optional value used by the matchers: a match at a position, or none. */
module Wrappers {

  datatype Option<+T> = None | Some(value: T)
}
