/** Python's `None`-or-value, for hrefs that may be absent and paths that may not resolve. */
module Wrappers {
  datatype Option<+T> = None | Some(value: T)
}
