/** Small definitions that several models share. */
module Basics {

  datatype Option<+T> = None | Some(value: T)

  type U32 = x: int | 0 <= x < 0x1_0000_0000

  function Max(a: int, b: int): int { if a < b then b else a }
  function Min(a: int, b: int): int { if a < b then a else b }
  function Max0(x: int): nat { if x < 0 then 0 else x }
}
