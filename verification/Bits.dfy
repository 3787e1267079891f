// Numbers as bits.

module Bits {
  import opened Arithmetic

  /** A value modulo 2^n as bits, as it would be written in base two. */
  function BitsOf(value: nat, n: nat): (s: seq<bool>)
    ensures |s| == n
  {
    if n == 0 then [] else BitsOf(value / 2, n - 1) + [value % 2 == 1]
  }

  function Number(bits: seq<bool>): nat {
    if bits == [] then 0
    else 2 * Number(bits[..|bits| - 1]) + if bits[|bits| - 1] then 1 else 0
  }

  lemma {:induction false} NumberOfBits(value: nat, n: nat)
    requires value < Pow2(n)
    ensures Number(BitsOf(value, n)) == value
    decreases n
  {
    if n > 0 {
      NumberOfBits(value / 2, n - 1);
      var bits := BitsOf(value, n);
      assert bits[..n - 1] == BitsOf(value / 2, n - 1);
    }
  }

  /** Bit number i of n is the value's bit n - 1 - i. */
  lemma {:induction false} BitIs(value: nat, n: nat, i: nat)
    requires i < n
    ensures BitsOf(value, n)[i] <==> value / Pow2(n - 1 - i) % 2 == 1
    decreases n
  {
    if i < n - 1 {
      BitIs(value / 2, n - 1, i);
      DivDiv(value, 2, Pow2(n - 2 - i));
    }
  }
}
