/** The conventional optional value, used where the C code returns NULL or keeps blocking. */
module Wrappers {
  datatype Option<+T> = None | Some(value: T)
}
