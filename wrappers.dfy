/** An optional value, used for the payload that is published only on some frames. */
module Wrappers {
  datatype Option<+T> = None | Some(value: T)
}
