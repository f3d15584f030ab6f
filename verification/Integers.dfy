/** Plain integer helpers. */
module Integers {
  function Abs(x: int): nat {
    if x < 0 then -x else x
  }

  function Max(x: int, y: int): int {
    if x < y then y else x
  }

  function Min(x: int, y: int): int {
    if x < y then x else y
  }

  lemma ProductMonotone(c: int, d: int, m: nat)
    requires c <= d
    ensures c * m <= d * m
  {
  }
}
