/** Bit arithmetic on unbounded naturals: Python's `<<`, `>>`, `&` and `^` on
    non-negative ints, which never overflow. */
module Bits {

  /** 2^k, the value of `1 << k`. */
  function Pow2(k: nat): (p: nat)
    ensures p >= 1
  {
    if k == 0 then 1 else 2 * Pow2(k - 1)
  }

  /** Bitwise exclusive or, `a ^ b`, one bit at a time from the least significant. */
  function Xor(a: nat, b: nat): nat
    decreases a + b
  {
    if a == 0 then b
    else if b == 0 then a
    else 2 * Xor(a / 2, b / 2) + (if a % 2 == b % 2 then 0 else 1)
  }

  /** Number of set bits among the k least significant bits of n: what a loop of k
      rounds of `acc = acc + (n & 1); n = n >> 1` adds up. */
  function Ones(n: nat, k: nat): (r: nat)
    ensures r <= k
  {
    if k == 0 then 0 else n % 2 + Ones(n / 2, k - 1)
  }

  /** A shift by a + b is a shift by a followed by a shift by b. */
  lemma {:induction false} Pow2Add(a: nat, b: nat)
    ensures Pow2(a + b) == Pow2(a) * Pow2(b)
  {
    if a > 0 {
      Pow2Add(a - 1, b);
    }
  }

  /** Exclusive or does not depend on the order of its operands. */
  lemma {:induction false} XorCommutes(a: nat, b: nat)
    ensures Xor(a, b) == Xor(b, a)
    decreases a + b
  {
    if a != 0 && b != 0 {
      XorCommutes(a / 2, b / 2);
    }
  }

  /** A value xor itself is zero: xoring the same value in twice cancels. */
  lemma {:induction false} XorSelf(a: nat)
    ensures Xor(a, a) == 0
  {
    if a != 0 {
      XorSelf(a / 2);
    }
  }

  /** All k low bits of 2^k - 1 are set, so the count over k rounds is k. */
  lemma {:induction false} OnesAllSet(k: nat)
    ensures Ones(Pow2(k) - 1, k) == k
  {
    if k > 0 {
      OnesAllSet(k - 1);
      assert (Pow2(k) - 1) / 2 == Pow2(k - 1) - 1;
    }
  }

  /** Exclusive or with zero leaves a value unchanged, in either position. */
  lemma XorZero(a: nat)
    ensures Xor(a, 0) == a && Xor(0, a) == a
  {
  }
}
