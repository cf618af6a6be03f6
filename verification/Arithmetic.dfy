/** Unsigned machine words, sums and products. */
module Arithmetic {

  /** Values of 32-bit unsigned integers stay below this ... */
  const UINT32 := 0x1_0000_0000

  /** ... and those of size_t below this. */
  const WRAP := 0x1_0000_0000_0000_0000

  /** Subtraction of size_t values. */
  function Minus(a: nat, b: nat): nat
    requires b <= a + WRAP
  {
    (a + WRAP - b) % WRAP
  }

  lemma MinusExact(a: nat, b: nat)
    requires b <= a < WRAP
    ensures Minus(a, b) == a - b
  {}

  lemma MulMonotone(a: int, b: int, n: nat)
    ensures a >= b ==> a * n >= b * n
  {}

  function Sum(s: seq<nat>): nat {
    if |s| == 0 then 0 else Sum(s[..|s| - 1]) + s[|s| - 1]
  }
}
