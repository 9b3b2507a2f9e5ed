/** Page arithmetic of the buddy allocator. */
module Pages {
  // Pages are indices from the base address, and the bit operations on byte offsets are given on
  // them, least significant bit first.

  /** Bytes per page. */
  const PAGE_SIZE: nat := 4096

  /** 8-byte units per page. */
  const UNITS: nat := 512

  /** Number of pages in a block of level k. */
  function Pow2(k: nat): (r: nat)
    ensures r >= 1
  {
    if k == 0 then 1 else 2 * Pow2(k - 1)
  }

  /** p >> k */
  function Shr(p: nat, k: nat): nat {
    if k == 0 then p else Shr(p / 2, k - 1)
  }

  /** p ^ (1 << k) */
  function FlipBit(p: nat, k: nat): nat {
    if k == 0 then (if p % 2 == 0 then p + 1 else p - 1)
    else 2 * FlipBit(p / 2, k - 1) + p % 2
  }

  /** p & ~(1 << k) */
  function ClearBit(p: nat, k: nat): nat {
    if k == 0 then p - p % 2
    else 2 * ClearBit(p / 2, k - 1) + p % 2
  }

  /** (p & (1 << k)) != 0 */
  predicate TestBit(p: nat, k: nat) {
    if k == 0 then p % 2 == 1 else TestBit(p / 2, k - 1)
  }

  /** First page of the naturally aligned level-k run that holds page x. */
  function Base(x: nat, k: nat): nat {
    if k == 0 then x else 2 * Base(x / 2, k - 1)
  }

  /** p starts a naturally aligned run of 2^k pages. */
  predicate Aligned(p: nat, k: nat) {
    Base(p, k) == p
  }

  /** The run of level k starting at p holds exactly the pages whose Base is p. */
  lemma {:induction false} BaseIsRunStart(x: nat, p: nat, k: nat)
    requires Aligned(p, k)
    ensures Base(x, k) == p <==> p <= x < p + Pow2(k)
  {
    if k > 0 {
      assert Base(p, k) == 2 * Base(p / 2, k - 1);
      BaseIsRunStart(x / 2, p / 2, k - 1);
    }
  }

  /** The run starts of one page at two levels determine each other downwards. */
  lemma {:induction false} BaseOfBase(x: nat, k: nat, j: nat)
    requires k <= j
    ensures Base(Base(x, k), j) == Base(x, j)
    ensures Base(Base(x, j), k) == Base(x, j)
  {
    if k > 0 {
      BaseOfBase(x / 2, k - 1, j - 1);
    }
  }

  lemma AlignedBase(x: nat, k: nat)
    ensures Aligned(Base(x, k), k)
    ensures Base(x, k) <= x < Base(x, k) + Pow2(k)
  {
    BaseOfBase(x, k, k);
    BaseIsRunStart(x, Base(x, k), k);
  }

  lemma {:induction false} FlipTwice(p: nat, k: nat)
    ensures FlipBit(FlipBit(p, k), k) == p
  {
    if k > 0 {
      FlipTwice(p / 2, k - 1);
    }
  }

  /** Toggling bit k of an aligned page gives the other half of the enclosing run. */
  lemma BuddyHalves(p: nat, k: nat)
    requires Aligned(p, k)
    ensures var q := FlipBit(p, k);
            && Aligned(q, k) && FlipBit(q, k) == p
            && ClearBit(p, k) == Base(p, k + 1) == Base(q, k + 1) == ClearBit(q, k)
            && (if p == Base(p, k + 1) then q == p + Pow2(k) else p == q + Pow2(k) && q == Base(p, k + 1))
  {
    FlipTwice(p, k);
    FlipHalves(p, k);
    FlipHalves(FlipBit(p, k), k);
  }

  lemma {:induction false} FlipHalves(p: nat, k: nat)
    requires Aligned(p, k)
    ensures Aligned(FlipBit(p, k), k)
    ensures ClearBit(p, k) == Base(p, k + 1) == Base(FlipBit(p, k), k + 1)
    ensures if p == Base(p, k + 1) then FlipBit(p, k) == p + Pow2(k)
            else p == FlipBit(p, k) + Pow2(k) && FlipBit(p, k) == Base(p, k + 1)
  {
    if k > 0 {
      FlipHalves(p / 2, k - 1);
    }
  }

  /** A run of level k + 1 is the disjoint union of its two halves. */
  lemma {:induction false} RunSplits(x: nat, p: nat, k: nat)
    requires Aligned(p, k)
    ensures Base(x, k + 1) == Base(p, k + 1) <==> Base(x, k) == p || Base(x, k) == FlipBit(p, k)
  {
    if k > 0 {
      RunSplits(x / 2, p / 2, k - 1);
    }
  }

  /** The pair index p >> (k + 1) separates pairs of buddies. */
  lemma {:induction false} PairIndex(p: nat, q: nat, k: nat)
    requires Aligned(p, k) && Aligned(q, k)
    ensures Shr(p, k + 1) == Shr(q, k + 1) <==> q == p || q == FlipBit(p, k)
  {
    if k > 0 {
      PairIndex(p / 2, q / 2, k - 1);
    }
  }

  lemma {:induction false} ShrMonotone(p: nat, q: nat, k: nat)
    requires p <= q
    ensures Shr(p, k) <= Shr(q, k)
  {
    if k > 0 {
      ShrMonotone(p / 2, q / 2, k - 1);
    }
  }

  /** Shifting divides by the run length. */
  lemma {:induction false} ShrDivides(p: nat, k: nat)
    ensures Shr(p, k) == p / Pow2(k)
  {
    if k > 0 {
      ShrDivides(p / 2, k - 1);
      DivideByDouble(p, Pow2(k - 1));
    }
  }

  lemma DivideByDouble(p: nat, d: nat)
    requires d > 0
    ensures p / 2 / d == p / (2 * d)
  {
    var q, r := p / 2 / d, p / 2 % d;
    assert p / 2 == q * d + r;
    assert p == q * (2 * d) + (2 * r + p % 2);
    SameQuotient(p, 2 * d, q, 2 * r + p % 2);
  }

  lemma SameQuotient(p: nat, d: nat, q: nat, r: nat)
    requires d > 0 && p == q * d + r && r < d
    ensures p / d == q
  {
    var x, y := p / d, p % d;
    assert p == x * d + y;
    if x < q { Scaled(x + 1, q, d); }
    if q < x { Scaled(q + 1, x, d); }
  }

  lemma Scaled(x: nat, y: nat, d: nat)
    requires x <= y
    ensures x * d <= y * d
  {
  }

  /** An aligned page with bit k set is not aligned one level up, and conversely. */
  lemma {:induction false} BitDecidesAlignment(p: nat, k: nat)
    requires Aligned(p, k)
    ensures TestBit(p, k) <==> !Aligned(p, k + 1)
    ensures TestBit(p, k) ==> Aligned(p + Pow2(k), k + 1)
    ensures Aligned(p + Pow2(k), k)
  {
    hide Base, Pow2, TestBit;
    OneStep(p, k);
    OneStep(p + Pow2(k), k);
    if k > 0 {
      OneStep(p, k - 1);
      BitDecidesAlignment(p / 2, k - 1);
      assert (p + Pow2(k)) / 2 == p / 2 + Pow2(k - 1);
    }
  }

  /** The definitions, one step at a time: half the page at one level less. */
  lemma OneStep(p: nat, k: nat)
    ensures Base(p, k + 1) == 2 * Base(p / 2, k)
    ensures k > 0 ==> Base(p, k) == 2 * Base(p / 2, k - 1) && Pow2(k) == 2 * Pow2(k - 1)
    ensures k > 0 ==> (TestBit(p, k) <==> TestBit(p / 2, k - 1))
    ensures k == 0 ==> Base(p, k) == p && Pow2(k) == 1 && (TestBit(p, k) <==> p % 2 == 1) && Base(p / 2, k) == p / 2
  {
  }

  lemma {:induction false} AlignedBelow(p: nat, k: nat, j: nat)
    requires k <= j && Aligned(p, j)
    ensures Aligned(p, k)
  {
    BaseOfBase(p, k, j);
  }

  lemma {:induction false} Pow2Monotone(k: nat, j: nat)
    requires k <= j
    ensures Pow2(k) <= Pow2(j)
  {
    if k < j {
      Pow2Monotone(k, j - 1);
    }
  }
}
