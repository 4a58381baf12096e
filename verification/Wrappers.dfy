/** AK/Optional.h as a value, and AK::min. */
module Wrappers {
  datatype Option<T> = None | Some(value: T)

  function Min(a: nat, b: nat): nat { if a < b then a else b }
}
