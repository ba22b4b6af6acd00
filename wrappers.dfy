/** The nullable values of the site's storage (a key that is absent, a `null` field). */
module Wrappers {
  datatype Option<+T> = None | Some(value: T)
}
