/** Bit masks kept in an `int`. */
module Bits {

  function Pow2(k: nat): (p: nat)
    ensures p > 0
  {
    if k == 0 then 1 else 2 * Pow2(k - 1)
  }

  /** Whether `n & (1 << k)` is nonzero; the division rounds down, so this is right for negative `n` too. */
  predicate BitSet(n: int, k: nat)
    decreases k
  {
    if k == 0 then n % 2 == 1 else BitSet(n / 2, k - 1)
  }

  /** `a | b`. */
  function Or(a: nat, b: nat): nat
    decreases a + b
  {
    if a == 0 then b
    else if b == 0 then a
    else (if a % 2 == 1 || b % 2 == 1 then 1 else 0) + 2 * Or(a / 2, b / 2)
  }

  /** The number whose bits are given, the lowest first. */
  function Flags(on: seq<bool>): nat {
    if on == [] then 0 else (if on[0] then 1 else 0) + 2 * Flags(on[1..])
  }

  lemma {:induction false} NoBits(k: nat)
    ensures !BitSet(0, k)
  {
    if k > 0 {
      NoBits(k - 1);
    }
  }

  lemma {:induction false} OrBits(a: nat, b: nat, k: nat)
    ensures BitSet(Or(a, b), k) <==> BitSet(a, k) || BitSet(b, k)
    decreases k
  {
    NoBits(k);
    if a != 0 && b != 0 && k > 0 {
      OrBits(a / 2, b / 2, k - 1);
    }
  }

  lemma {:induction false} OrBound(a: nat, b: nat, k: nat)
    requires a < Pow2(k) && b < Pow2(k)
    ensures Or(a, b) < Pow2(k)
    decreases k
  {
    if a != 0 && b != 0 {
      OrBound(a / 2, b / 2, k - 1);
    }
  }

  lemma {:induction false} FlagsBits(on: seq<bool>, k: nat)
    ensures BitSet(Flags(on), k) <==> k < |on| && on[k]
    ensures Flags(on) < Pow2(|on|)
    decreases |on|
  {
    if on == [] {
      NoBits(k);
    } else {
      FlagsBits(on[1..], if k == 0 then 0 else k - 1);
      assert Flags(on) / 2 == Flags(on[1..]);
    }
  }

  /** A number below a power of two is determined by its bits. */
  lemma {:induction false} FlagsOfBits(n: nat, on: seq<bool>)
    requires n < Pow2(|on|)
    requires forall k :: 0 <= k < |on| ==> on[k] == BitSet(n, k)
    ensures Flags(on) == n
    decreases |on|
  {
    if on != [] {
      assert forall k :: 0 <= k < |on| - 1 ==> on[1..][k] == on[k + 1];
      FlagsOfBits(n / 2, on[1..]);
    }
  }

  lemma {:induction false} OneBit(i: nat, k: nat)
    ensures BitSet(Pow2(i), k) <==> k == i
    decreases k
  {
    if i == 0 && k > 0 {
      NoBits(k - 1);
    } else if k > 0 {
      OneBit(i - 1, k - 1);
    }
  }
}
