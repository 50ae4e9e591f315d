/** Saturating u64 arithmetic, and the few facts of plain arithmetic the clocks lean on. */
module Saturating {
  import opened Bytes

  const U64_MAX: U64 := 0xFFFF_FFFF_FFFF_FFFF

  function SatAdd(a: U64, b: U64): U64 {
    if a + b <= U64_MAX then a + b else U64_MAX
  }

  function SatSub(a: U64, b: U64): U64 {
    if a >= b then a - b else 0
  }

  function SatMul(a: U64, b: U64): U64 {
    MulNonNegative(a, b);
    if a * b <= U64_MAX then a * b else U64_MAX
  }

  function Min(a: int, b: int): int {
    if a <= b then a else b
  }

  lemma MulNonNegative(a: nat, b: nat)
    ensures a * b >= 0
  {
  }

  lemma Distribute(a: int, b: int, c: int)
    ensures (a + b) * c == a * c + b * c
  {
  }
}
