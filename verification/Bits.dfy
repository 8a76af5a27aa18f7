/**
 Powers of two, binary shifts and the bitwise operators the kernel uses on
 page frame numbers, all over unbounded naturals.

 `Idx(x, o)` is `x >> o` and `Base(x, o)` clears the low `o` bits.  Both halve
 their argument step by step, which keeps every fact below linear.
 */
module Bits {

  function Pow2(n: nat): (r: nat)
    ensures r > 0
  {
    if n == 0 then 1 else 2 * Pow2(n - 1)
  }

  function Idx(x: nat, o: nat): nat {
    if o == 0 then x else Idx(x / 2, o - 1)
  }

  function Base(x: nat, o: nat): nat {
    if o == 0 then x else 2 * Base(x / 2, o - 1)
  }

  predicate Aligned(x: nat, o: nat) {
    x == Base(x, o)
  }

  /** `x` is one of the 2^o pages from `p` on. */
  predicate InBlock(x: nat, p: nat, o: nat) {
    p <= x < p + Pow2(o)
  }

  /** Bitwise exclusive or. */
  function Xor(a: nat, b: nat): nat {
    if a == 0 then b
    else if b == 0 then a
    else 2 * Xor(a / 2, b / 2) + (if a % 2 == b % 2 then 0 else 1)
  }

  /** Bitwise `a & ~b`. */
  function AndNot(a: nat, b: nat): nat {
    if a == 0 then 0
    else 2 * AndNot(a / 2, b / 2) + (if a % 2 == 1 && b % 2 == 0 then 1 else 0)
  }

  /** Shifting by `o + 1` halves the shift by `o`. */
  lemma {:induction false} IdxNext(x: nat, o: nat)
    ensures Idx(x, o + 1) == Idx(x, o) / 2
  {
    if o > 0 {
      IdxNext(x / 2, o - 1);
    }
  }

  /** Equal high parts stay equal under a larger shift. */
  lemma {:induction false} IdxCoarser(x: nat, y: nat, o: nat, r: nat)
    requires o <= r && Idx(x, o) == Idx(y, o)
    ensures Idx(x, r) == Idx(y, r)
  {
    if o > 0 {
      IdxCoarser(x / 2, y / 2, o - 1, r - 1);
    } 
  }

  lemma {:induction false} BaseFacts(x: nat, o: nat)
    ensures Base(x, o) <= x < Base(x, o) + Pow2(o)
    ensures Aligned(Base(x, o), o) && Idx(Base(x, o), o) == Idx(x, o)
  {
    if o > 0 {
      BaseFacts(x / 2, o - 1);
    }
  }

  /** The block of an aligned `p` is the interval `[p, p + 2^o)`. */
  lemma {:induction false} BlockIsInterval(p: nat, o: nat, x: nat)
    requires Aligned(p, o)
    ensures Idx(x, o) == Idx(p, o) <==> InBlock(x, p, o)
    ensures Base(x, o) == p <==> InBlock(x, p, o)
  {
    if o > 0 {
      BlockIsInterval(p / 2, o - 1, x / 2);
    }
  }

  /** A block aligned at one order is aligned at every smaller one. */
  lemma {:induction false} AlignedFiner(p: nat, o: nat, r: nat)
    requires r <= o && Aligned(p, o)
    ensures Aligned(p, r)
  {
    if r > 0 {
      AlignedFiner(p / 2, o - 1, r - 1);
    }
  }

  /** The next aligned block. */
  lemma {:induction false} NextBlock(p: nat, o: nat)
    requires Aligned(p, o)
    ensures Aligned(p + Pow2(o), o) && Idx(p + Pow2(o), o) == Idx(p, o) + 1
    ensures Idx(p, o) > 0 ==> p >= Pow2(o) && Aligned(p - Pow2(o), o) && Idx(p - Pow2(o), o) == Idx(p, o) - 1
  {
    if o > 0 {
      NextBlock(p / 2, o - 1);
      assert (p + Pow2(o)) / 2 == p / 2 + Pow2(o - 1);
      if Idx(p, o) > 0 {
        assert (p - Pow2(o)) / 2 == p / 2 - Pow2(o - 1);
      }
    }
  }

  /** The block of order `o + 1` around an aligned block of order `o`. */
  lemma {:induction false} BaseUp(p: nat, o: nat)
    requires Aligned(p, o)
    ensures Idx(p, o) % 2 == 1 ==> p >= Pow2(o)
    ensures Base(p, o + 1) == if Idx(p, o) % 2 == 0 then p else p - Pow2(o)
  {
    if o > 0 {
      BaseUp(p / 2, o - 1);
    }
  }

  /** The two halves of an aligned block of order `o + 1`. */
  lemma Halves(p: nat, o: nat)
    requires Aligned(p, o + 1)
    ensures Aligned(p, o) && Aligned(p + Pow2(o), o)
    ensures Xor(p, Pow2(o)) == p + Pow2(o) && Xor(p + Pow2(o), Pow2(o)) == p
    ensures forall x: nat :: InBlock(x, p, o + 1) <==> InBlock(x, p, o) || InBlock(x, p + Pow2(o), o)
  {
    AlignedFiner(p, o + 1, o);
    NextBlock(p, o);
    BaseUp(p, o);
    XorPow2(p, o);
    XorPow2(p + Pow2(o), o);
  }

  /** Flipping bit `o` adds or subtracts 2^o. */
  lemma {:induction false} XorPow2(p: nat, o: nat)
    ensures Xor(p, Pow2(o)) == if Idx(p, o) % 2 == 0 then p + Pow2(o) else p - Pow2(o)
    ensures Idx(p, o) % 2 == 1 ==> p >= Pow2(o)
  {
    if p == 0 {
      IdxZero(o);
    } else if o == 0 {
      assert Xor(p, 1) == 2 * Xor(p / 2, 0) + (if p % 2 == 1 then 0 else 1);
      assert Xor(p / 2, 0) == p / 2;
    } else {
      XorPow2(p / 2, o - 1);
      assert Pow2(o) / 2 == Pow2(o - 1) && Pow2(o) % 2 == 0;
      assert Xor(p, Pow2(o)) == 2 * Xor(p / 2, Pow2(o - 1)) + (if p % 2 == 0 then 0 else 1);
    }
  }

  /** Clearing bit `o` subtracts 2^o when it is set. */
  lemma {:induction false} AndNotPow2(p: nat, o: nat)
    ensures AndNot(p, Pow2(o)) == if Idx(p, o) % 2 == 0 then p else p - Pow2(o)
    ensures Idx(p, o) % 2 == 1 ==> p >= Pow2(o)
  {
    if p == 0 {
      IdxZero(o);
    } else if o == 0 {
      AndNotZero(p / 2);
    } else {
      AndNotPow2(p / 2, o - 1);
      assert Pow2(o) / 2 == Pow2(o - 1) && Pow2(o) % 2 == 0;
      assert AndNot(p, Pow2(o)) == 2 * AndNot(p / 2, Pow2(o - 1)) + (if p % 2 == 1 then 1 else 0);
    }
  }

  lemma {:induction false} AndNotZero(a: nat)
    ensures AndNot(a, 0) == a
  {
    if a > 0 {
      AndNotZero(a / 2);
    }
  }

  lemma {:induction false} IdxZero(o: nat)
    ensures Idx(0, o) == 0 && Aligned(0, o)
  {
    if o > 0 {
      IdxZero(o - 1);
    }
  }
}
