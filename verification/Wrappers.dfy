/** Values that may be absent: null pointers, failed lookups, requests without reply. */
module Wrappers {
  datatype Option<+T> = None | Some(value: T)
}
