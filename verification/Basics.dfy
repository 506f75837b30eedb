/** Types shared by every module of the project. */
module Basics {

  datatype Option<+T> = None | Some(value: T)

  /** Go's 32-bit unsigned integer. */
  type uint32 = n: int | 0 <= n <= 0xFFFF_FFFF

  const MAX_UINT32: uint32 := 0xFFFF_FFFF

  /** `n++` on a uint32: wraps to zero after the largest value. */
  function Increment(n: uint32): uint32 {
    if n == MAX_UINT32 then 0 else n + 1
  }
}
