/** Unsigned 32-bit counters, as used for the dispatcher's job ids and its
    in-progress counter: `++` and `--` on a `uint32_t` wrap modulo 2^32. */
module Uint32 {

  const WORD: int := 0x1_0000_0000

  type U32 = x: int | 0 <= x < WORD

  /** `x++` on a `uint32_t`: one greater, except that the largest value wraps to 0. */
  function Inc(x: U32): (r: U32)
    ensures x < WORD - 1 ==> r == x + 1
    ensures x == WORD - 1 ==> r == 0
  {
    (x + 1) % WORD
  }

  /** `x--` on a `uint32_t`: one less, except that 0 wraps to the largest value.
      Dafny's `%` is Euclidean, so `(0 - 1) % WORD` is `WORD - 1`. */
  function Dec(x: U32): (r: U32)
    ensures x > 0 ==> r == x - 1
    ensures x == 0 ==> r == WORD - 1
  {
    (x - 1) % WORD
  }

  /** Decrementing undoes incrementing, wrap-around included. */
  lemma DecInc(x: U32)
    ensures Dec(Inc(x)) == x
  {
  }

  /** A counter that holds a count reduced modulo 2^32 keeps doing so when incremented. */
  lemma IncOfMod(n: nat)
    ensures Inc(n % WORD) == (n + 1) % WORD
  {
  }

  /** ... and when decremented, as long as the count itself is positive. */
  lemma DecOfMod(n: nat)
    requires n > 0
    ensures Dec(n % WORD) == (n - 1) % WORD
  {
  }
}
