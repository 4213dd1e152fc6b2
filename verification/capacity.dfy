/** round_up_power_of_2() of hashtable.cc, on the bits of a 64-bit size_t. */
module Capacities {

  /** The highest bit that is set, and all bits below it. */
  function Smeared(n: bv64): bv64 {
    var n := n | (n >> 1);
    var n := n | (n >> 2);
    var n := n | (n >> 4);
    var n := n | (n >> 8);
    var n := n | (n >> 16);
    n | (n >> 32)
  }

  /** round_up_power_of_2() */
  function RoundUpPowerOf2(n: bv64): bv64 {
    Smeared(n - 1) + 1
  }

  /** The condition h_init() asserts of a capacity. */
  predicate IsCapacity(n: bv64) {
    n > 0 && ((n - 1) & n) == 0
  }

  /** The number is a power of two, or zero. */
  predicate IsOneBit(p: bv64) {
    p & (p - 1) == 0
  }

  function Half(p: bv64): bv64 {
    p >> 1
  }

  lemma RoundedIsOneBit(n: bv64)
    ensures IsOneBit(RoundUpPowerOf2(n))
  {
  }

  lemma HalfIsOneBit(n: bv64)
    ensures IsOneBit(Half(RoundUpPowerOf2(n)))
  {
  }

  lemma RoundedIsNotZero(n: bv64)
    ensures RoundUpPowerOf2(n) != 0 <==> 1 <= n <= 0x8000_0000_0000_0000
  {
  }

  /** The assertion of h_init() holds exactly for requested capacities 1 .. 2^63. */
  lemma RoundUpSucceeds(n: bv64)
    ensures IsCapacity(RoundUpPowerOf2(n)) <==> 1 <= n <= 0x8000_0000_0000_0000
  {
    hide RoundUpPowerOf2;
    RoundedIsOneBit(n);
    RoundedIsNotZero(n);
  }

  /** All bits of n - 1 lie below the power p. */
  predicate Fits(n: bv64, p: bv64) {
    p != 0 && (n - 1) & (p - 1) == n - 1
  }

  lemma RoundedFits(n: bv64)
    requires 1 <= n <= 0x8000_0000_0000_0000
    ensures Fits(n, RoundUpPowerOf2(n))
  {
    hide RoundUpPowerOf2;
    RoundedCovers(n);
    RoundedIsNotZero(n);
  }

  lemma RoundedCovers(n: bv64)
    ensures (n - 1) & (RoundUpPowerOf2(n) - 1) == n - 1
  {
  }

  lemma RoundUpIsEnough(n: bv64)
    requires 1 <= n <= 0x8000_0000_0000_0000
    ensures n <= RoundUpPowerOf2(n)
  {
    hide RoundUpPowerOf2, IsOneBit, Fits;
    RoundedIsOneBit(n);
    RoundedFits(n);
    FitsBelow(n, RoundUpPowerOf2(n));
  }

  lemma FitsBelow(n: bv64, p: bv64)
    requires IsOneBit(p) && Fits(n, p)
    ensures n <= p
  {
  }

  /** The bit b is set in n - 1. */
  predicate Has(n: bv64, b: bv64) {
    b & (n - 1) != 0
  }

  /** No smaller power would do. */
  lemma RoundUpIsLeast(n: bv64)
    requires 2 <= n <= 0x8000_0000_0000_0000
    ensures Half(RoundUpPowerOf2(n)) < n
  {
    hide RoundUpPowerOf2, Half;
    HalfIsOneBit(n);
    HalfIsSet(n);
  }

  lemma HalfIsSet(n: bv64)
    requires 2 <= n <= 0x8000_0000_0000_0000
    ensures Has(n, Half(RoundUpPowerOf2(n)))
  {
    hide Smeared, RoundUpPowerOf2, Half;
    RoundedIsNotZero(n);
    TopBit(n - 1);
    HalfIsTop(n);
  }

  lemma TopBit(m: bv64)
    requires m != 0
    ensures (Smeared(m) ^ (Smeared(m) >> 1)) & m != 0
  {
  }

  lemma HalfIsTop(n: bv64)
    requires RoundUpPowerOf2(n) != 0
    ensures var s := Smeared(n - 1); Half(RoundUpPowerOf2(n)) == s ^ (s >> 1)
  {
  }

  /** A capacity that already is a power of two, as both callers of h_init() pass, is left alone. */
  lemma RoundUpFixesPowers(n: bv64)
    requires IsCapacity(n)
    ensures RoundUpPowerOf2(n) == n
  {
  }
}
