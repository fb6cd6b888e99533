/** Types that several modules share. */
module Basics {

  datatype Option<T> = None | Some(value: T)

  type byte = b: nat | b < 256

  function Max(a: nat, b: nat): nat
  {
    if a < b then b else a
  }
}
