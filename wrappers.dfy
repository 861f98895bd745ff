/**
  The answer of a lookup. `None` is the nil the lookup answers when the path
  cannot be followed. A nil actually stored in the container is a `Scalar`
  value, so `Some` means "the path was followed", not "the answer is non-nil".
 */
module Wrappers {

  datatype Option<+T> = None | Some(value: T)
}
