/** The conventional optional value, used for calls that may fail (JSON.parse) and for searches. */
module Wrappers {
  datatype Option<+T> = None | Some(value: T)
}
