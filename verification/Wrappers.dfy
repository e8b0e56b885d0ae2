/** A value that may be absent: Go's nil and comma-ok results. */
module Wrappers {
  datatype Option<+T> = None | Some(value: T)

  type Byte = b: int | 0 <= b < 256

  function Min(a: int, b: int): int {
    if a <= b then a else b
  }

  function Max(a: int, b: int): int {
    if a >= b then a else b
  }
}
