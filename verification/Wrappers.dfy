// A value that may be missing: what the source says with nil, an empty string or a second
// result.
module Wrappers {

  datatype Option<+T> = None | Some(value: T)
}
