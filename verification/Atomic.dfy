/** The atomic instructions both multi-process samples use on shared memory. */
module Atomic {

  /** The value of a 32-bit `int` that has wrapped around. */
  function Int32(x: int): int {
    (x + 0x8000_0000) % 0x1_0000_0000 - 0x8000_0000
  }

  /** The 32-bit word addressed and the one behind it. */
  datatype Words = Words(lo: int, hi: int)

  /** The upper word of a sign-extended `int`. */
  function Sign(x: int): int {
    if x < 0 then -1 else 0
  }

  /**
   `lock; cmpxchg` with `unsigned long` operands converted from `int`: what the addressed word
   was, and what memory is now. The instruction has the width of its register operand: on 64
   bits (`wide`) it compares and stores the word behind as well, on 32 bits it does not.
   */
  function Cmpxchg(wide: bool, mem: Words, expected: int, desired: int): (int, Words) {
    if mem.lo == expected && (wide ==> mem.hi == Sign(expected))
    then (mem.lo, Words(desired, if wide then Sign(desired) else mem.hi))
    else (mem.lo, mem)
  }

  lemma Shifted(a: int, t: int)
    ensures (a + t * 0x1_0000_0000) % 0x1_0000_0000 == a % 0x1_0000_0000
  {
  }

  /** The one `int` congruent to `x` modulo 2^32. */
  lemma Int32Is(x: int, t: int)
    ensures -0x8000_0000 <= Int32(x) < 0x8000_0000
    ensures -0x8000_0000 <= x < 0x8000_0000 ==> Int32(x) == x
    ensures Int32(x + t * 0x1_0000_0000) == Int32(x)
  {
    Shifted(x + 0x8000_0000, t);
  }

  /** Wrapping early makes no difference to a sum. */
  lemma WrapsOnce(x: int, d: int)
    ensures Int32(Int32(x) + d) == Int32(x + d)
  {
    var t := (x + 0x8000_0000) / 0x1_0000_0000;
    Shifted(x + d + 0x8000_0000, -t);
  }
}
