/** What several components share. */
module Basics {

  /** 32-bit unsigned arithmetic wraps around here. */
  const TWO_TO_THE_32 := 0x1_0000_0000

  lemma MulMonotone(a: int, b: int, c: int)
    requires 0 <= a <= b && 0 <= c
    ensures 0 <= a * c <= b * c
  {
  }

  lemma Associate<T>(a: seq<T>, b: seq<T>, c: seq<T>)
    ensures a + b + c == a + (b + c)
  {
  }
}
