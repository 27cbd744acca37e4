/** Kotlin `Int` arithmetic: 32-bit two's complement with silent wrap-around. */
module Int32 {
  const MinInt: int := -0x8000_0000
  const MaxInt: int := 0x7fff_ffff

  type Int = x: int | MinInt <= x <= MaxInt

  /** The 32-bit value an unbounded integer result wraps to. */
  function Wrap(x: int): (r: Int)
    ensures (r - x) % 0x1_0000_0000 == 0
    ensures MinInt <= x <= MaxInt ==> r == x
  {
    (x - MinInt) % 0x1_0000_0000 + MinInt
  }
}
