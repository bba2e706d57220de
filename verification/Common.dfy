/** Optional values and the machine integers of the program. */
module Common {
  datatype Option<+T> = None | Some(value: T)

  type byte = x: int | 0 <= x < 256
  type int32 = x: int | -0x8000_0000 <= x < 0x8000_0000
  type uint32 = x: int | 0 <= x < 0x1_0000_0000
  type int64 = x: int | -0x8000_0000_0000_0000 <= x < 0x8000_0000_0000_0000
  type uint64 = x: int | 0 <= x < TWO_TO_64

  const TWO_TO_64 := 0x1_0000_0000_0000_0000

  /** 32-bit unsigned arithmetic. */
  function Wrap32(x: int): (r: uint32)
    ensures 0 <= x < 0x1_0000_0000 ==> r == x
  {
    x % 0x1_0000_0000
  }

  lemma Wrap32Twice(a: int, b: int)
    ensures Wrap32(Wrap32(a) + b) == Wrap32(a + b)
  {
  }

  /** 64-bit unsigned arithmetic. */
  function Wrap64(x: int): (r: uint64)
    ensures 0 <= x < TWO_TO_64 ==> r == x
    ensures TWO_TO_64 <= x < 2 * TWO_TO_64 ==> r == x - TWO_TO_64
  {
    x % 0x1_0000_0000_0000_0000
  }

  /** Wrapping an operand first makes no difference. */
  lemma WrapTwice(a: int, b: int)
    ensures Wrap64(Wrap64(a) + b) == Wrap64(a + b)
  {
  }
}
