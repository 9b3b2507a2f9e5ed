/** The buddy allocator as functions on its free lists, block start pages per level, head first. */
module Buddy {
  import opened Pages
  import opened Sequences

  const TOTAL_LEVEL: nat := 18

  /** One list per level; pair bits and the spare counter are determined by the lists (see
      PageLists.Represents). */
  type Pool = seq<seq<nat>>

  // ----- operations -----

  /** Returning a block.  None stands for the coalescing cascade leaving the table of
      free lists, where the source writes behind its last list head. */
  function Free(pool: Pool, p: nat, k: nat): (r: Option<Pool>)
    requires |pool| == TOTAL_LEVEL
    ensures r.Some? ==> |r.value| == TOTAL_LEVEL
    decreases TOTAL_LEVEL - k, p
  {
    if k >= TOTAL_LEVEL then None
    else if FlipBit(p, k) in pool[k] then
      Free(pool[k := Remove(pool[k], FlipBit(p, k))], ClearBit(p, k), k + 1)
    else Some(pool[k := [p] + pool[k]])
  }

  /** Taking a block: the page found, if any, and the pool afterwards. */
  function Alloc(pool: Pool, k: nat): (r: (Option<nat>, Option<Pool>))
    requires |pool| == TOTAL_LEVEL
    ensures r.1.Some? ==> |r.1.value| == TOTAL_LEVEL
    decreases TOTAL_LEVEL - k, |pool|
  {
    if k >= TOTAL_LEVEL then (None, Some(pool))
    else if pool[k] == [] then
      var (page, rest) := Alloc(pool, k + 1);
      if page == None || rest == None then (page, rest)
      else (page, Free(rest.value, FlipBit(page.value, k), k))
    else (Some(pool[k][0]), Some(pool[k := pool[k][1..]]))
  }

  // ----- invariant -----

  /** Page x lies in some free block. */
  ghost predicate IsFree(pool: Pool, x: nat)
    requires |pool| == TOTAL_LEVEL
  {
    exists k :: 0 <= k < TOTAL_LEVEL && Base(x, k) in pool[k]
  }

  /** Blocks are aligned, below the limit and listed once. */
  ghost predicate WellPlaced(pool: Pool, limit: nat)
    requires |pool| == TOTAL_LEVEL
  {
    && (forall k, p :: 0 <= k < TOTAL_LEVEL && p in pool[k] ==> Aligned(p, k) && p + Pow2(k) <= limit)
    && (forall k :: 0 <= k < TOTAL_LEVEL ==> NoDup(pool[k]))
  }

  /** No block lies inside a bigger one: as aligned runs nest, blocks are disjoint. */
  ghost predicate NoNesting(pool: Pool)
    requires |pool| == TOTAL_LEVEL
  {
    forall k, j, p :: 0 <= k < j < TOTAL_LEVEL && p in pool[k] ==> Base(p, j) !in pool[j]
  }

  /** Coalescing is maximal: two buddies are never both free. */
  ghost predicate NoBuddies(pool: Pool)
    requires |pool| == TOTAL_LEVEL
  {
    forall k, p :: 0 <= k < TOTAL_LEVEL && p in pool[k] ==> FlipBit(p, k) !in pool[k]
  }

  ghost predicate Inv(pool: Pool, limit: nat) {
    && |pool| == TOTAL_LEVEL
    && WellPlaced(pool, limit)
    && NoNesting(pool)
    && NoBuddies(pool)
  }

  /** Every page of the run of level k that holds p is free. */
  ghost predicate RunFree(pool: Pool, p: nat, k: nat)
    requires |pool| == TOTAL_LEVEL
  {
    forall x :: Base(x, k) == Base(p, k) ==> IsFree(pool, x)
  }

  /** No page of the block is free. */
  ghost predicate BlockTaken(pool: Pool, p: nat, k: nat)
    requires |pool| == TOTAL_LEVEL
  {
    forall x :: Base(x, k) == p ==> !IsFree(pool, x)
  }

  // ----- one block taken off a list -----

  /** Dropping one listed block keeps the invariant and un-frees exactly its pages. */
  lemma DropBlock(pool: Pool, limit: nat, q: nat, k: nat, after: Pool)
    requires Inv(pool, limit) && k < TOTAL_LEVEL && q in pool[k]
    requires after == pool[k := Remove(pool[k], q)]
    ensures Inv(after, limit)
    ensures forall x :: IsFree(after, x) <==> IsFree(pool, x) && Base(x, k) != q
  {
    RemoveKeeps(pool[k], q);
    forall x ensures IsFree(after, x) <==> IsFree(pool, x) && Base(x, k) != q {
      if IsFree(after, x) {
        var j :| 0 <= j < TOTAL_LEVEL && Base(x, j) in after[j];
        UniqueBlock(pool, limit, x);
      }
      if IsFree(pool, x) && Base(x, k) != q {
        var j :| 0 <= j < TOTAL_LEVEL && Base(x, j) in pool[j];
        assert Base(x, j) in after[j];
      }
    }
  }

  /** A page lies in at most one free block. */
  lemma UniqueBlock(pool: Pool, limit: nat, x: nat)
    requires Inv(pool, limit)
    ensures forall i, j | 0 <= i < j < TOTAL_LEVEL && Base(x, i) in pool[i] :: Base(x, j) !in pool[j]
  {
    forall i, j | 0 <= i < j < TOTAL_LEVEL && Base(x, i) in pool[i]
      ensures Base(x, j) !in pool[j]
    {
      BaseOfBase(x, i, j);
    }
  }

  // ----- freeing -----

  /** Listing a block whose buddy is not listed. */
  lemma AddBlock(pool: Pool, limit: nat, p: nat, k: nat, after: Pool)
    requires Inv(pool, limit) && k < TOTAL_LEVEL
    requires Aligned(p, k) && p + Pow2(k) <= limit && BlockTaken(pool, p, k)
    requires FlipBit(p, k) !in pool[k]
    requires after == pool[k := [p] + pool[k]]
    ensures Inv(after, limit)
    ensures forall x :: IsFree(after, x) <==> IsFree(pool, x) || Base(x, k) == p
  {
    assert !IsFree(pool, p);
    assert p !in pool[k];
    AddKeepsNoNesting(pool, p, k, after);
    AddKeepsNoBuddies(pool, p, k, after);
    AddFrees(pool, p, k, after);
  }

  lemma AddFrees(pool: Pool, p: nat, k: nat, after: Pool)
    requires |pool| == TOTAL_LEVEL && k < TOTAL_LEVEL
    requires after == pool[k := [p] + pool[k]]
    ensures forall x :: IsFree(after, x) <==> IsFree(pool, x) || Base(x, k) == p
  {
    forall x ensures IsFree(after, x) <==> IsFree(pool, x) || Base(x, k) == p {
      if IsFree(pool, x) {
        var j :| 0 <= j < TOTAL_LEVEL && Base(x, j) in pool[j];
        assert Base(x, j) in after[j];
      }
      if Base(x, k) == p {
        assert Base(x, k) in after[k];
      }
    }
  }

  lemma AddKeepsNoBuddies(pool: Pool, p: nat, k: nat, after: Pool)
    requires |pool| == TOTAL_LEVEL && NoBuddies(pool) && k < TOTAL_LEVEL
    requires Aligned(p, k) && FlipBit(p, k) !in pool[k]
    requires forall q :: q in pool[k] ==> Aligned(q, k)
    requires after == pool[k := [p] + pool[k]]
    ensures NoBuddies(after)
  {
    forall q | q in pool[k] ensures FlipBit(q, k) != p {
      BuddyHalves(q, k);
    }
    BuddyHalves(p, k);
  }

  lemma AddKeepsNoNesting(pool: Pool, p: nat, k: nat, after: Pool)
    requires |pool| == TOTAL_LEVEL && NoNesting(pool) && k < TOTAL_LEVEL
    requires Aligned(p, k) && BlockTaken(pool, p, k)
    requires forall i, q :: 0 <= i < TOTAL_LEVEL && q in pool[i] ==> Aligned(q, i)
    requires after == pool[k := [p] + pool[k]]
    ensures NoNesting(after)
  {
    assert !IsFree(pool, p);
    forall i, j, q | 0 <= i < j < TOTAL_LEVEL && q in after[i]
      ensures Base(q, j) !in after[j]
    {
      if q in pool[i] {
        assert IsFree(pool, q) by { assert Base(q, i) in pool[i]; }
      }
    }
  }

  /** Free keeps the invariant and frees exactly the pages of the block, whatever merges. */
  lemma {:induction false} FreeAddsBlock(pool: Pool, limit: nat, p: nat, k: nat)
    requires Inv(pool, limit)
    requires Aligned(p, k) && p + Pow2(k) <= limit && BlockTaken(pool, p, k)
    requires Free(pool, p, k).Some?
    ensures var after := Free(pool, p, k).value;
            && Inv(after, limit)
            && forall x :: IsFree(after, x) <==> IsFree(pool, x) || Base(x, k) == p
    decreases TOTAL_LEVEL - k
  {
    var q := FlipBit(p, k);
    if q in pool[k] {
      var rest, super := MergeStep(pool, limit, p, k);
      FreeAddsBlock(rest, limit, super, k + 1);
      var after := Free(pool, p, k).value;
      forall x ensures IsFree(after, x) <==> IsFree(pool, x) || Base(x, k) == p {
        RunSplits(x, p, k);
        assert Base(x, k) == q ==> IsFree(pool, x);
      }
    } else {
      AddBlock(pool, limit, p, k, Free(pool, p, k).value);
    }
  }

  /** One merge: after taking the buddy off its list, the doubled block is again freeable. */
  lemma MergeStep(pool: Pool, limit: nat, p: nat, k: nat) returns (rest: Pool, super: nat)
    requires Inv(pool, limit) && k < TOTAL_LEVEL
    requires Aligned(p, k) && p + Pow2(k) <= limit && BlockTaken(pool, p, k)
    requires FlipBit(p, k) in pool[k]
    ensures rest == pool[k := Remove(pool[k], FlipBit(p, k))] && super == ClearBit(p, k)
    ensures Inv(rest, limit)
    ensures Aligned(super, k + 1) && super + Pow2(k + 1) <= limit && BlockTaken(rest, super, k + 1)
    ensures super == Base(p, k + 1)
    ensures forall x :: IsFree(rest, x) <==> IsFree(pool, x) && Base(x, k) != FlipBit(p, k)
  {
    var q := FlipBit(p, k);
    rest, super := pool[k := Remove(pool[k], q)], ClearBit(p, k);
    DropBlock(pool, limit, q, k, rest);
    BuddyHalves(p, k);
    AlignedBase(p, k + 1);
    forall x | Base(x, k + 1) == super ensures !IsFree(rest, x) {
      RunSplits(x, p, k);
    }
  }

  /** Both halves of a free run are free runs. */
  lemma HalvesFree(pool: Pool, q: nat, k: nat)
    requires |pool| == TOTAL_LEVEL && Aligned(q, k + 1) && RunFree(pool, q, k + 1)
    ensures Aligned(q, k) && RunFree(pool, q, k)
    ensures Aligned(FlipBit(q, k), k) && RunFree(pool, FlipBit(q, k), k)
    ensures forall j :: k < j ==> Base(FlipBit(q, k), j) == Base(q, j)
  {
    AlignedBelow(q, k, k + 1);
    BuddyHalves(q, k);
    forall x ensures Base(x, k) == q || Base(x, k) == FlipBit(q, k) ==> IsFree(pool, x) {
      RunSplits(x, q, k);
    }
    forall j | k < j ensures Base(FlipBit(q, k), j) == Base(q, j) {
      BaseOfBase(FlipBit(q, k), k + 1, j);
    }
  }

  /** A wholly free run lies inside one free block: the induction over levels rests on
      NoBuddies alone. */
  lemma {:induction false} FreeRunIsOneBlock(pool: Pool, limit: nat, q: nat, k: nat) returns (j: nat)
    requires Inv(pool, limit) && Aligned(q, k) && k <= TOTAL_LEVEL && RunFree(pool, q, k)
    ensures k <= j < TOTAL_LEVEL && Base(q, j) in pool[j]
    decreases k
  {
    if k == 0 {
      assert IsFree(pool, q);
      j :| 0 <= j < TOTAL_LEVEL && Base(q, j) in pool[j];
    } else {
      HalvesFree(pool, q, k - 1);
      j := FreeRunIsOneBlock(pool, limit, q, k - 1);
      if j == k - 1 {
        j := FreeRunIsOneBlock(pool, limit, FlipBit(q, k - 1), k - 1);
      }
    }
  }

  /** Maximal coalescing leaves no top-level pair wholly free. */
  lemma TopRunNotFree(pool: Pool, limit: nat, q: nat)
    requires Inv(pool, limit)
    ensures exists x: nat :: Base(x, TOTAL_LEVEL) == Base(q, TOTAL_LEVEL) && !IsFree(pool, x)
  {
    AlignedBase(q, TOTAL_LEVEL);
    BaseOfBase(q, TOTAL_LEVEL, TOTAL_LEVEL);
    if RunFree(pool, Base(q, TOTAL_LEVEL), TOTAL_LEVEL) {
      var j := FreeRunIsOneBlock(pool, limit, Base(q, TOTAL_LEVEL), TOTAL_LEVEL);
    }
  }

  /** The cascade leaves the table exactly when freeing the block would make the whole
      aligned run of 2^TOTAL_LEVEL pages around it free. */
  lemma {:induction false} FreeOverflowsIff(pool: Pool, limit: nat, p: nat, k: nat)
    requires Inv(pool, limit) && k <= TOTAL_LEVEL
    requires Aligned(p, k) && p + Pow2(k) <= limit && BlockTaken(pool, p, k)
    ensures Free(pool, p, k) == None <==>
      forall x :: Base(x, TOTAL_LEVEL) == Base(p, TOTAL_LEVEL) ==> IsFree(pool, x) || Base(x, k) == p
    decreases TOTAL_LEVEL - k
  {
    if k < TOTAL_LEVEL {
      var q := FlipBit(p, k);
      BuddyHalves(p, k);
      BaseOfBase(p, k + 1, TOTAL_LEVEL);
      if q in pool[k] {
        var rest, super := MergeStep(pool, limit, p, k);
        FreeOverflowsIff(rest, limit, super, k + 1);
        forall x ensures IsFree(rest, x) || Base(x, k + 1) == super <==> IsFree(pool, x) || Base(x, k) == p {
          RunSplits(x, p, k);
          assert Base(x, k) == q ==> IsFree(pool, x);
        }
      } else if forall x :: Base(x, TOTAL_LEVEL) == Base(p, TOTAL_LEVEL) ==> IsFree(pool, x) || Base(x, k) == p {
        forall x | Base(x, k) == q ensures IsFree(pool, x) {
          BaseOfBase(x, k, TOTAL_LEVEL);
          BaseOfBase(q, k + 1, TOTAL_LEVEL);
        }
        var j := FreeRunIsOneBlock(pool, limit, q, k);
        assert Base(q, k) == q;
        BaseOfBase(p, k + 1, j);
        BaseOfBase(q, k + 1, j);
        assert false;
      }
    }
  }

  /** A block about to be freed is unlisted and, like its listed buddy, below the limit. */
  lemma FreeSetup(pool: Pool, limit: nat, p: nat, k: nat)
    requires Inv(pool, limit) && Aligned(p, k) && p + Pow2(k) <= limit && BlockTaken(pool, p, k) && k < TOTAL_LEVEL
    ensures p !in pool[k] && !IsFree(pool, p) && p < limit
    ensures FlipBit(p, k) in pool[k] ==> FlipBit(p, k) < limit && Aligned(FlipBit(p, k), k)
  {
    assert Base(p, k) == p && !IsFree(pool, p);
  }

  // ----- allocating -----

  /** Alloc succeeds exactly when a list at this level or above is occupied. */
  lemma {:induction false} AllocSucceedsIff(pool: Pool, k: nat)
    requires |pool| == TOTAL_LEVEL
    ensures Alloc(pool, k).0.Some? <==> exists j :: k <= j < TOTAL_LEVEL && pool[j] != []
    ensures Alloc(pool, k).0 == None ==> Alloc(pool, k).1 == Some(pool)
    decreases TOTAL_LEVEL - k
  {
    if k < TOTAL_LEVEL && pool[k] == [] {
      AllocSucceedsIff(pool, k + 1);
    }
  }

  /** A successful Alloc keeps the invariant, returns an aligned block of free pages and
      takes exactly those pages; it never overflows; lists below k are left alone. */
  lemma {:induction false} AllocTakesBlock(pool: Pool, limit: nat, k: nat)
    requires Inv(pool, limit) && Alloc(pool, k).0.Some?
    ensures Alloc(pool, k).1.Some?
    ensures var p, after := Alloc(pool, k).0.value, Alloc(pool, k).1.value;
            && Inv(after, limit) && Aligned(p, k) && p + Pow2(k) <= limit
            && RunFree(pool, p, k) && BlockTaken(after, p, k)
            && (forall x :: IsFree(after, x) <==> IsFree(pool, x) && Base(x, k) != p)
            && (forall i :: 0 <= i < k && i < TOTAL_LEVEL ==> after[i] == pool[i])
    decreases TOTAL_LEVEL - k
  {
    if pool[k] == [] {
      AllocTakesBlock(pool, limit, k + 1);
      SplitTakesHalf(pool, limit, Alloc(pool, k + 1).1.value, Alloc(pool, k + 1).0.value, k);
    } else {
      var p := pool[k][0];
      assert pool[k][1..] == Remove(pool[k], p);
      DropBlock(pool, limit, p, k, pool[k := pool[k][1..]]);
      assert forall x :: Base(x, k) == p ==> Base(x, k) in pool[k];
    }
  }

  /** Splitting a taken block of level k + 1: its upper half goes on the empty list k. */
  lemma SplitTakesHalf(pool: Pool, limit: nat, rest: Pool, p: nat, k: nat)
    requires Inv(rest, limit) && k < TOTAL_LEVEL && rest[k] == [] && |pool| == TOTAL_LEVEL
    requires Aligned(p, k + 1) && p + Pow2(k + 1) <= limit
    requires RunFree(pool, p, k + 1)
    requires forall x :: IsFree(rest, x) <==> IsFree(pool, x) && Base(x, k + 1) != p
    ensures Aligned(p, k) && p + Pow2(k) <= limit && RunFree(pool, p, k)
    ensures Free(rest, FlipBit(p, k), k) == Some(rest[k := [FlipBit(p, k)]])
    ensures var after := rest[k := [FlipBit(p, k)]];
            && Inv(after, limit) && BlockTaken(after, p, k)
            && forall x :: IsFree(after, x) <==> IsFree(pool, x) && Base(x, k) != p
  {
    AlignedBelow(p, k, k + 1);
    BuddyHalves(p, k);
    var q := FlipBit(p, k);
    forall x ensures Base(x, k + 1) == p <==> Base(x, k) == p || Base(x, k) == q {
      RunSplits(x, p, k);
    }
    assert [q] + rest[k] == [q];
    AddBlock(rest, limit, q, k, rest[k := [q]]);
  }

  /** Allocation is complete: it fails exactly when no aligned run of 2^k pages is wholly
      free, and a failing allocation changes nothing. */
  lemma AllocComplete(pool: Pool, limit: nat, k: nat)
    requires Inv(pool, limit)
    ensures Alloc(pool, k).0 == None <==> forall q :: Aligned(q, k) ==> !RunFree(pool, q, k)
    ensures Alloc(pool, k).0 == None ==> Alloc(pool, k).1 == Some(pool)
  {
    AllocSucceedsIff(pool, k);
    if Alloc(pool, k).0.Some? {
      AllocTakesBlock(pool, limit, k);
    } else if q :| Aligned(q, k) && RunFree(pool, q, k) {
      if k < TOTAL_LEVEL {
        var j := FreeRunIsOneBlock(pool, limit, q, k);
      } else {
        TopRunNotFree(pool, limit, q);
        var x: nat :| Base(x, TOTAL_LEVEL) == Base(q, TOTAL_LEVEL) && !IsFree(pool, x);
        BaseOfBase(x, TOTAL_LEVEL, k);
        BaseOfBase(q, TOTAL_LEVEL, k);
      }
    }
  }

  // ----- canonicity -----

  /** A block is listed exactly when its run is free and the enclosing run is not. */
  lemma ListedIff(pool: Pool, limit: nat, p: nat, k: nat)
    requires Inv(pool, limit) && k < TOTAL_LEVEL && Aligned(p, k)
    ensures p in pool[k] <==> RunFree(pool, p, k) && !RunFree(pool, p, k + 1)
  {
    if p in pool[k] {
      forall x | Base(x, k) == p ensures IsFree(pool, x) {}
      if RunFree(pool, p, k + 1) {
        AlignedBase(p, k + 1);
        BaseOfBase(p, k + 1, k + 1);
        var j := FreeRunIsOneBlock(pool, limit, Base(p, k + 1), k + 1);
        BaseOfBase(p, k + 1, j);
        assert false;
      }
    }
    if RunFree(pool, p, k) && !RunFree(pool, p, k + 1) {
      var j := FreeRunIsOneBlock(pool, limit, p, k);
      if j > k {
        forall x | Base(x, k + 1) == Base(p, k + 1) ensures IsFree(pool, x) {
          BaseOfBase(x, k + 1, j);
          BaseOfBase(p, k + 1, j);
        }
      }
    }
  }

  /** The free structure is a function of the free pages alone. */
  lemma Canonical(a: Pool, b: Pool, limit: nat, k: nat, p: nat)
    requires Inv(a, limit) && Inv(b, limit) && k < TOTAL_LEVEL
    requires forall x :: IsFree(a, x) <==> IsFree(b, x)
    ensures p in a[k] <==> p in b[k]
  {
    if Aligned(p, k) {
      ListedIff(a, limit, p, k);
      ListedIff(b, limit, p, k);
    }
  }

  /** Freeing what was just allocated restores every list, order included. */
  lemma {:induction false} FreeUndoesAlloc(pool: Pool, limit: nat, k: nat)
    requires Inv(pool, limit) && Alloc(pool, k).0.Some?
    ensures Alloc(pool, k).1.Some?
    ensures Free(Alloc(pool, k).1.value, Alloc(pool, k).0.value, k) == Some(pool)
    decreases TOTAL_LEVEL - k
  {
    AllocTakesBlock(pool, limit, k);
    if pool[k] == [] {
      AllocTakesBlock(pool, limit, k + 1);
      FreeUndoesAlloc(pool, limit, k + 1);
      UndoSplit(pool, Alloc(pool, k + 1).1.value, Alloc(pool, k + 1).0.value, k);
    } else {
      UndoPop(pool, k);
    }
  }

  lemma UndoPop(pool: Pool, k: nat)
    requires |pool| == TOTAL_LEVEL && k < TOTAL_LEVEL && pool[k] != []
    requires FlipBit(pool[k][0], k) !in pool[k][1..]
    ensures Free(pool[k := pool[k][1..]], pool[k][0], k) == Some(pool)
  {
    assert [pool[k][0]] + pool[k][1..] == pool[k];
    assert pool[k := pool[k][1..]][k := pool[k]] == pool;
  }

  /** Putting the upper half on its empty list and then freeing the lower half merges the
      two and goes on as if the whole had been freed. */
  lemma UndoSplit(pool: Pool, rest: Pool, p: nat, k: nat)
    requires |pool| == |rest| == TOTAL_LEVEL && k < TOTAL_LEVEL && rest[k] == [] && Aligned(p, k + 1)
    requires Free(rest, p, k + 1) == Some(pool)
    ensures Free(rest, FlipBit(p, k), k).Some?
    ensures Free(Free(rest, FlipBit(p, k), k).value, p, k) == Some(pool)
  {
    AlignedBelow(p, k, k + 1);
    BuddyHalves(p, k);
    var q := FlipBit(p, k);
    assert [q] + rest[k] == [q];
    assert Free(rest, q, k) == Some(rest[k := [q]]);
    assert rest[k := [q]][k := []] == rest;
  }

  /** After a block of level k was returned, a request for level k cannot fail. */
  lemma AllocAfterFree(pool: Pool, limit: nat, p: nat, k: nat)
    requires Inv(pool, limit) && k < TOTAL_LEVEL
    requires Aligned(p, k) && p + Pow2(k) <= limit && BlockTaken(pool, p, k)
    requires Free(pool, p, k).Some?
    ensures Alloc(Free(pool, p, k).value, k).0.Some?
  {
    FreeAddsBlock(pool, limit, p, k);
    AllocComplete(Free(pool, p, k).value, limit, k);
    assert RunFree(Free(pool, p, k).value, p, k);
  }

  // ----- which block is taken, and where a block is put -----

  /** The block served is the first one of the smallest level that has any; splitting keeps its
      lower half. */
  lemma {:induction false} AllocIsFirst(pool: Pool, k: nat) returns (j: nat)
    requires |pool| == TOTAL_LEVEL && Alloc(pool, k).0.Some?
    ensures k <= j < TOTAL_LEVEL && pool[j] != [] && Alloc(pool, k).0 == Some(pool[j][0])
    ensures forall i :: k <= i < j ==> pool[i] == []
    decreases TOTAL_LEVEL - k
  {
    j := k;
    if pool[k] == [] {
      j := AllocIsFirst(pool, k + 1);
    }
  }

  /** A freed block is put in front of the list of the level that it reaches: below, each list
      only loses the buddy that was merged, and all other lists stay as they are. */
  lemma {:induction false} FreeIsFirst(pool: Pool, p: nat, k: nat) returns (j: nat)
    requires |pool| == TOTAL_LEVEL && Aligned(p, k) && Free(pool, p, k).Some?
    ensures k <= j < TOTAL_LEVEL
    ensures var after := Free(pool, p, k).value;
            && after[j] == [Base(p, j)] + pool[j] && FlipBit(Base(p, j), j) !in pool[j]
            && (forall i :: k <= i < j ==>
                  FlipBit(Base(p, i), i) in pool[i] && after[i] == Remove(pool[i], FlipBit(Base(p, i), i)))
            && forall i :: 0 <= i < TOTAL_LEVEL && !(k <= i <= j) ==> after[i] == pool[i]
    decreases TOTAL_LEVEL - k
  {
    j := k;
    if FlipBit(p, k) in pool[k] {
      BuddyHalves(p, k);
      AlignedBase(p, k + 1);
      var rest := pool[k := Remove(pool[k], FlipBit(p, k))];
      j := FreeIsFirst(rest, ClearBit(p, k), k + 1);
      forall i | k + 1 <= i ensures Base(ClearBit(p, k), i) == Base(p, i) {
        BaseOfBase(p, k + 1, i);
      }
    }
  }
}
