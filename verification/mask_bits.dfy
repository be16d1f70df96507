/** The source stores each digit set as the bits of a Java `int`: digit v
    is bit v, `m | (1 << v)` adds it and `(m & (1 << v)) == 0` tests for its
    absence. This module shows that the digit sets the grid keeps follow
    those bit operations exactly. */
module MaskBits {

  type IntMask = bv32

  function Bit(v: nat): IntMask
    requires v <= 9
  {
    (1 as IntMask) << v
  }

  /** The bit mask m encodes the digit set s. */
  predicate Encodes(m: IntMask, s: set<int>) {
    forall v: nat | v <= 9 :: (m & Bit(v) != 0) <==> v in s
  }

  /** An all-zero `int` encodes the empty set. */
  lemma ZeroEncodesEmpty()
    ensures Encodes(0, {})
  {
  }

  /** OR-ing in bit n adds digit n and nothing else. */
  lemma OrEncodesAdd(m: IntMask, s: set<int>, n: nat)
    requires n <= 9 && Encodes(m, s)
    ensures Encodes(m | Bit(n), s + {n})
  {
    forall v: nat | v <= 9 ensures ((m | Bit(n)) & Bit(v) != 0) <==> v in s + {n} {
      OrBit(m, n, v);
    }
  }

  lemma OrBit(m: IntMask, n: nat, v: nat)
    requires n <= 9 && v <= 9
    ensures (m | Bit(n)) & Bit(v) != 0 <==> m & Bit(v) != 0 || v == n
  {
  }

  /** The source's clear-bit test is the model's non-membership test. */
  lemma ClearBitIsAbsence(m: IntMask, s: set<int>, n: nat)
    requires n <= 9 && Encodes(m, s)
    ensures (m & Bit(n) == 0) <==> n !in s
  {
  }
}
