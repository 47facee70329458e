/** Powers of two, bit lengths and shifts of non-negative integers. */
module Bits {

  function Pow2(j: nat): (p: nat)
    ensures p > 0
  {
    if j == 0 then 1 else 2 * Pow2(j - 1)
  }

  function BitLength(a: nat): nat {
    if a == 0 then 0 else 1 + BitLength(a / 2)
  }

  /** a >> i */
  function ShiftRight(a: nat, i: nat): nat {
    if i == 0 then a else ShiftRight(a / 2, i - 1)
  }

  lemma {:induction false} ShiftRightStep(a: nat, i: nat)
    ensures ShiftRight(a, i + 1) == ShiftRight(a, i) / 2
  {
    if i > 0 {
      ShiftRightStep(a / 2, i - 1);
    }
  }

  lemma {:induction false} BitLengthBounds(a: nat)
    ensures a < Pow2(BitLength(a))
    ensures a > 0 ==> BitLength(a) > 0 && Pow2(BitLength(a) - 1) <= a
  {
    if a > 0 {
      BitLengthBounds(a / 2);
    }
  }

  lemma {:induction false} Pow2Monotone(i: nat, j: nat)
    requires i <= j
    ensures Pow2(i) <= Pow2(j)
  {
    if i < j {
      Pow2Monotone(i, j - 1);
    }
  }

  /** 2**((number - 1).bit_length()); Python's (-1).bit_length() is 1. */
  function RoundToPow2(number: nat): nat {
    if number == 0 then 2 else Pow2(BitLength(number - 1))
  }

  /** The smallest power of two that is not below a positive number. */
  lemma RoundToPow2IsLeast(number: nat)
    requires number > 0
    ensures RoundToPow2(number) >= number
    ensures forall j: nat :: Pow2(j) >= number ==> Pow2(j) >= RoundToPow2(number)
  {
    BitLengthBounds(number - 1);
    forall j: nat | Pow2(j) >= number
      ensures Pow2(j) >= RoundToPow2(number)
    {
      if j < BitLength(number - 1) {
        Pow2Monotone(j, BitLength(number - 1) - 1);
      } else {
        Pow2Monotone(BitLength(number - 1), j);
      }
    }
  }
}
