/** The page manager as the program runs it: list heads and list nodes in memory, pair bits
    in bytes, one spare counter, all updated in place.

    The ghost field pool is the model's pool; Valid says that lists, bits and counter represent
    it.  Each method is one function of the source or one of its loops, and its contract names
    the model's operation that it carries out and the memory that it may write. */
module PageManager {
  import opened Pages
  import opened Sequences
  import opened Buddy
  import opened Donate
  import opened Lists
  import opened Bitmaps
  import opened PageLists

  class PageMan {
    const mem: Memory
    const bytes: array<Byte>
    const bitmaps: seq<nat>
    const limit: nat
    const heads: nat
    var spare: int
    ghost var pool: Pool

    ghost predicate LaidOut()
      reads this, mem
    {
      && mem.Valid() && bytes as object != mem.first && bytes as object != mem.second
      && limit > 0 && bitmaps == Layout(limit, TOTAL_LEVEL)
    }

    ghost predicate Valid()
      reads this, mem, mem.first, mem.second, bytes
    {
      LaidOut() && |pool| == TOTAL_LEVEL && Represents(mem.Contents(), bytes[..], spare, heads, pool, limit)
    }

    /** An empty manager: zeroed bitmaps laid out one after the other, empty lists. */
    constructor Empty(mem: Memory, heads: nat, limit: nat, bitmaps: seq<nat>, totalSize: nat)
      requires limit > 0 && totalSize == Start(limit, TOTAL_LEVEL)
      requires bitmaps == Layout(limit, TOTAL_LEVEL)
      requires mem.Valid() && UNITS * limit <= heads && heads + TOTAL_LEVEL <= mem.first.Length
      modifies mem.first, mem.second
      ensures Valid() && fresh(this) && fresh(bytes)
      ensures this.mem == mem && this.heads == heads && this.limit == limit && bytes.Length == totalSize
      ensures forall x :: !IsFree(pool, x)
      ensures forall a :: !(heads <= a < heads + TOTAL_LEVEL) ==> SameAt(old(mem.Contents()), mem.Contents(), a)
    {
      this.mem, this.heads, this.limit, this.bitmaps := mem, heads, limit, bitmaps;
      bytes := new Byte[totalSize](_ => 0);
      spare := 0;
      pool := seq(TOTAL_LEVEL, _ => []);
      new;
      for level := 0 to TOTAL_LEVEL
        modifies mem.first, mem.second
        invariant forall h :: heads <= h < heads + level ==> Ring(mem.Contents(), h, [])
        invariant |mem.Contents().first| == |mem.Contents().second|
        invariant forall a :: !(heads <= a < heads + TOTAL_LEVEL) ==> SameAt(old(mem.Contents()), mem.Contents(), a)
      {
        ghost var w := mem.Contents();
        mem.ListEmpty(heads + level);
        assert mem.Contents().first == w.first[heads + level := heads + level];
        forall a | !(heads <= a < heads + TOTAL_LEVEL) ensures SameAt(old(mem.Contents()), mem.Contents(), a) {
          assert SameAt(old(mem.Contents()), w, a);
        }
        forall h | heads <= h < heads + level ensures Ring(mem.Contents(), h, []) {
          RingFrame(w, mem.Contents(), h, []);
        }
        assert Joined(mem.Contents(), heads + level, [], -1);
      }
      assert PageSet(pool, limit) == {};
      forall k | 0 <= k < TOTAL_LEVEL ensures Nodes(pool[k]) == [] {}
      ZeroBitsMatch(bytes[..], pool, limit);
    }

    /** Toggles the bit of the pair of p. */
    method SwitchPair(p: nat, k: nat) returns (wasSet: bool)
      requires LaidOut() && |pool| == TOTAL_LEVEL && BitsMatch(bytes[..], pool, limit)
      requires k < TOTAL_LEVEL && p < limit && Aligned(p, k)
      modifies bytes
      ensures Toggled(old(bytes[..]), bytes[..], Place(limit, k, p))
      ensures wasSet == ((p in pool[k]) != (FlipBit(p, k) in pool[k]))
    {
      PlaceInLevel(limit, k, p);
      if k + 1 < TOTAL_LEVEL {
        StartMonotone(limit, k + 1, TOTAL_LEVEL);
      }
      assert Place(limit, k, p) < 8 * bytes.Length;
      LayoutAt(limit, TOTAL_LEVEL, k);
      wasSet := Switch(bytes, bitmaps[k], Shr(p, k + 1));
    }

    /** The state between the toggle of a pair bit and the list update it announces. */
    ghost predicate MidUpdate(bits: seq<Byte>, p: nat, k: nat)
      reads this, mem, mem.first, mem.second, bytes
    {
      && LaidOut() && |pool| == TOTAL_LEVEL && Represents(mem.Contents(), bits, spare, heads, pool, limit)
      && k < TOTAL_LEVEL && p < limit && Toggled(bits, bytes[..], Place(limit, k, p))
    }

    /** Takes block q off its list. */
    method Unlist(q: nat, k: nat, ghost bits: seq<Byte>)
      requires MidUpdate(bits, q, k) && q in pool[k]
      modifies `spare, `pool, mem.first, mem.second
      ensures Valid() && pool == old(pool)[k := Remove(old(pool)[k], q)]
      ensures SameOutside(old(mem.Contents()), mem.Contents(), heads, old(pool))
    {
      hide Represents, SameOutside, Toggled;
      Unlisted(mem.Contents(), bits, bytes[..], spare, heads, pool, limit, k, q);
      spare := spare - PAGE_SIZE * Pow2(k);
      mem.ListRemove(UNITS * q);
      pool := pool[k := Remove(pool[k], q)];
    }

    /** Puts block p on its list. */
    method List(p: nat, k: nat, ghost bits: seq<Byte>)
      requires MidUpdate(bits, p, k) && FlipBit(p, k) !in pool[k]
      requires Aligned(p, k) && p + Pow2(k) <= limit && BlockTaken(pool, p, k)
      modifies `spare, `pool, mem.first, mem.second
      ensures Valid() && pool == old(pool)[k := [p] + old(pool)[k]]
      ensures SameOutside(old(mem.Contents()), mem.Contents(), heads, pool)
    {
      hide Represents, SameOutside, Toggled, BlockTaken;
      ghost var w, s, after := mem.Contents(), spare + PAGE_SIZE * Pow2(k), pool[k := [p] + pool[k]];
      Listed(w, bits, bytes[..], spare, heads, pool, limit, k, p);
      spare := spare + PAGE_SIZE * Pow2(k);
      mem.ListAddFirst(heads + k, UNITS * p);
      pool := after;
      assert mem.Contents() == Linked(w, heads + k, UNITS * p);
      assert Represents(Linked(w, heads + k, UNITS * p), bytes[..], s, heads, after, limit);
    }

    /** Returns a block, coalescing with its buddy as long as the pair bit was set; false where
        the source writes behind its table of lists. */
    method FreePages(p: nat, k: nat) returns (ok: bool)
      requires Valid()
      requires k < TOTAL_LEVEL ==> Aligned(p, k) && p + Pow2(k) <= limit && BlockTaken(pool, p, k)
      modifies `spare, `pool, mem.first, mem.second, bytes
      ensures ok <==> Free(old(pool), p, k).Some?
      ensures ok ==> Valid() && Some(pool) == Free(old(pool), p, k)
      ensures ok ==> SameOutside(old(mem.Contents()), mem.Contents(), heads, pool)
      decreases TOTAL_LEVEL - k
    {
      hide Inv, Rings, BitsMatch, PageSet, SameOutside, BlockTaken, IsFree;
      if k >= TOTAL_LEVEL {
        return false;
      }
      ghost var w, bits, before := mem.Contents(), bytes[..], pool;
      var buddy := FlipBit(p, k);
      FreeSetup(pool, limit, p, k);
      var wasSet := SwitchPair(p, k);
      if wasSet {
        PlaceIff(limit, k, p, k, buddy);
        ghost var rest, super := MergeStep(pool, limit, p, k);
        Unlist(buddy, k, bits);
        ghost var u := mem.Contents();
        ok := FreePages(ClearBit(p, k), k + 1);
        if ok {
          FreeOnlyAdds(before, limit, p, k);
          SameOutsideTwice(w, u, mem.Contents(), heads, before, pool);
        }
      } else {
        List(p, k, bits);
        ok := true;
      }
    }

    /** Takes the first block of an occupied list. */
    method PopFirst(k: nat) returns (page: nat)
      requires Valid() && k < TOTAL_LEVEL && pool[k] != []
      modifies `spare, `pool, mem.first, mem.second, bytes
      ensures Valid() && page == old(pool)[k][0] && pool == old(pool)[k := old(pool)[k][1..]]
      ensures SameOutside(old(mem.Contents()), mem.Contents(), heads, old(pool))
    {
      hide Inv, Rings, BitsMatch, PageSet, SameOutside;
      ghost var w, bits, p := mem.Contents(), bytes[..], pool[k][0];
      FirstOfList(w, heads, pool, limit, k);
      spare := spare - PAGE_SIZE * Pow2(k);
      var first := mem.second[heads + k];
      page := first / UNITS;
      mem.ListRemove(first);
      var wasSet := SwitchPair(page, k);
      Unlisted(w, bits, bytes[..], old(spare), heads, pool, limit, k, p);
      assert Remove(pool[k], p) == pool[k][1..];
      pool := pool[k := pool[k][1..]];
    }

    /** Takes a block of level k, splitting a bigger one if the list is empty. */
    method AllocPages(k: nat) returns (page: Option<nat>)
      requires Valid()
      modifies `spare, `pool, mem.first, mem.second, bytes
      ensures Valid() && (page, Some(pool)) == Alloc(old(pool), k)
      ensures SameOutside(old(mem.Contents()), mem.Contents(), heads, old(pool))
      decreases TOTAL_LEVEL - k
    {
      hide Inv, Rings, BitsMatch, PageSet, SameOutside, BlockTaken, IsFree;
      SameOutsideSelf(mem.Contents(), heads, pool);
      if k >= TOTAL_LEVEL {
        return None;
      }
      ghost var w, before := mem.Contents(), pool;
      EmptyHead(w, heads, pool, limit, k);
      var isEmpty := mem.ListIsEmpty(heads + k, Nodes(pool[k]));
      if isEmpty {
        page := AllocPages(k + 1);
        if page == None {
          return;
        }
        ghost var u, rest := mem.Contents(), pool;
        SplitFits(before, limit, k);
        var ok := FreePages(FlipBit(page.value, k), k);
        SplitStaysInside(w, u, mem.Contents(), heads, before, rest, pool);
      } else {
        var first := PopFirst(k);
        page := Some(first);
      }
    }
  
    /** The pieces in rest are cut from [off, hi) and, once returned, lead to the pool goal. */
    ghost predicate Donating(w: Words, off: nat, hi: nat, rest: seq<Block>, goal: Option<Pool>)
      reads this, mem, mem.first, mem.second, bytes
    {
      && Valid() && hi <= limit
      && SameOutside(w, mem.Contents(), heads, pool)
      && Fits(rest, off, hi) && SpanTaken(pool, off, hi)
      && goal == FreeAll(pool, rest)
    }

    /** Donates a range of bytes, cut into naturally aligned blocks; false where the source
        writes behind its table of lists. */
    method FreeBlock(addr: nat, bytesGiven: nat) returns (ok: bool)
      requires Valid() && FirstPage(addr) + PageCount(bytesGiven) <= limit
      requires SpanTaken(pool, FirstPage(addr), FirstPage(addr) + PageCount(bytesGiven))
      modifies `spare, `pool, mem.first, mem.second, bytes
      ensures ok <==> NoTopRun(old(pool), FirstPage(addr), FirstPage(addr) + PageCount(bytesGiven))
      ensures ok ==>
        && Valid()
        && Some(pool) == FreeAll(old(pool), Pieces(FirstPage(addr), PageCount(bytesGiven)))
        && Freed(old(pool), pool, FirstPage(addr), FirstPage(addr) + PageCount(bytesGiven))
        && SameOutside(old(mem.Contents()), mem.Contents(), heads, pool)
    {
      hide Inv, Rings, BitsMatch, PageSet, SameOutside, SpanTaken, NoTopRun, Freed, Fits, FreeAll, Pieces;
      var off, size := FirstPage(addr), PageCount(bytesGiven);
      ghost var w, hi, goal := mem.Contents(), off + size, FreeAll(pool, Pieces(off, size));
      DonationIff(pool, limit, off, size);
      PiecesTileIff(off, size);
      SameOutsideSelf(w, heads, pool);
      ok, off, size := CutUp(off, size, w, hi, goal);
      if ok {
        TailSplits(pool, off, size);
        if size >= Pow2(TOTAL_LEVEL) {
          // The first round of the middle loop; there is no second one.
          ok := FreePages(off, TOTAL_LEVEL + 1);
        } else {
          ok := CutDown(off, size, TOTAL_LEVEL, w, hi, goal);
        }
      }
    }

    /** The ascending loop over the levels. */
    method CutUp(lo: nat, n: nat, ghost w: Words, ghost hi: nat, ghost goal: Option<Pool>)
      returns (ok: bool, off: nat, size: nat)
      requires lo + n == hi && Donating(w, lo, hi, Pieces(lo, n), goal)
      modifies `spare, `pool, mem.first, mem.second, bytes
      ensures ok ==> off + size == hi && Donating(w, off, hi, Tail(off, size), goal)
      ensures !ok ==> goal == None
    {
      hide Donating, Pow2, TestBit, Remaining, Tail;
      ok, off, size := true, lo, n;
      PiecesRemain(lo, n);
      var i: nat := 0;
      while i <= TOTAL_LEVEL
        invariant i <= TOTAL_LEVEL + 1
        invariant off + size == hi && Donating(w, off, hi, Remaining(off, size, i), goal)
      {
        RemainingStep(off, size, i);
        if TestBit(off, i) && size >= Pow2(i) {
          ok := FreeNext(off, hi, i, Remaining(off + Pow2(i), size - Pow2(i), i + 1), w, goal);
          if !ok {
            return;
          }
          off := off + Pow2(i);
          size := size - Pow2(i);
        }
        i := i + 1;
      }
      ok := true;
      RemainingEnd(off, size, i);
    }

    /** The descending loop over the levels below n. */
    method CutDown(lo: nat, pagesLeft: nat, n: nat, ghost w: Words, ghost hi: nat, ghost goal: Option<Pool>)
      returns (ok: bool)
      requires lo + pagesLeft == hi && Donating(w, lo, hi, Descend(lo, pagesLeft, n), goal)
      modifies `spare, `pool, mem.first, mem.second, bytes
      ensures ok <==> goal.Some?
      ensures ok ==> Valid() && SameOutside(w, mem.Contents(), heads, pool) && goal == Some(pool)
    {
      hide Represents, SameOutside, SpanTaken;
      var off: nat, size: nat, i: nat := lo, pagesLeft, n;
      while i > 0
        invariant i <= n
        invariant off + size == hi && Donating(w, off, hi, Descend(off, size, i), goal)
      {
        i := i - 1;
        if size >= Pow2(i) {
          ok := FreeNext(off, hi, i, Descend(off + Pow2(i), size - Pow2(i), i), w, goal);
          if !ok {
            return;
          }
          off := off + Pow2(i);
          size := size - Pow2(i);
        }
      }
      ok := true;
    }

    /** Returns the next piece of a range. */
    method FreeNext(off: nat, ghost hi: nat, i: nat, ghost rest: seq<Block>, ghost w: Words, ghost goal: Option<Pool>)
      returns (ok: bool)
      requires Donating(w, off, hi, [Block(off, i)] + rest, goal)
      modifies `spare, `pool, mem.first, mem.second, bytes
      ensures ok ==> Donating(w, off + Pow2(i), hi, rest, goal)
      ensures !ok ==> goal == None
    {
      hide Rings, BitsMatch, PageSet, SameOutside;
      ghost var u, before := mem.Contents(), pool;
      NextPieceFits(pool, limit, off, hi, i, rest);
      ok := FreePages(off, i);
      if ok {
        SameOutsideTwice(w, u, mem.Contents(), heads, before, pool);
      }
    }

    /** The bitmaps follow each other, one per level. */
    static method LayOutBitmaps(limit: nat, levels: nat) returns (bitmaps: seq<nat>, totalSize: nat)
      requires limit > 0
      ensures bitmaps == Layout(limit, levels) && totalSize == Start(limit, levels)
    {
      totalSize, bitmaps := 0, [];
      for level := 0 to levels
        invariant bitmaps == Layout(limit, level) && totalSize == Start(limit, level)
      {
        bitmaps := bitmaps + [totalSize];
        totalSize := totalSize + LevelBytes(limit, level);
      }
    }

    /** Creates a manager inside the first available block and donates the rest of the block:
        exactly the pages that lie wholly behind the record of 228 bytes and the bitmaps.  Null
        where the source's assertion on the block's size fails, or where donating a whole
        top-level run writes behind the table of lists. */
    static method Create(mem: Memory, heads: nat, limit: nat, first: nat, firstSize: nat) returns (man: PageMan?)
      requires mem.Valid() && limit > 0 && UNITS * limit <= heads && heads + TOTAL_LEVEL <= mem.first.Length
      requires first + firstSize <= limit
      modifies mem.first, mem.second
      ensures var bytes := 228 + Start(limit, TOTAL_LEVEL);
        man == null <==> 4096 * firstSize < bytes || RunBehind(first, first + firstSize, bytes)
      ensures man != null ==>
        && fresh(man) && fresh(man.bytes) && man.Valid()
        && man.mem == mem && man.heads == heads && man.limit == limit
        && man.bytes.Length == Start(limit, TOTAL_LEVEL)
        && forall x: nat :: IsFree(man.pool, x) <==>
             first <= x < first + firstSize && 4096 * (x - first) >= 228 + man.bytes.Length
    {
      hide Represents, SameOutside, HoldsTopRun, RunBehind;
      var bitmaps, totalSize := LayOutBitmaps(limit, TOTAL_LEVEL);
      var pageCost := AlignTo(totalSize + STRUCT_SIZE, PAGE_SIZE) / PAGE_SIZE;
      PagesFor(totalSize + STRUCT_SIZE);
      RunsBehind(first, pageCost, first + firstSize, totalSize + 228);
      if pageCost > firstSize {
        return null;
      }
      var m := new PageMan.Empty(mem, heads, limit, bitmaps, totalSize);
      var ok := m.DonateFirst(first + pageCost, firstSize - pageCost);
      man := if ok then m else null;
    }

    /** Donates what is left of the first block. */
    method DonateFirst(first: nat, size: nat) returns (ok: bool)
      requires Valid() && forall x :: !IsFree(pool, x)
      requires first + size <= limit
      modifies `spare, `pool, mem.first, mem.second, bytes
      ensures ok <==> !HoldsTopRun(first, first + size)
      ensures ok ==> Valid() && forall x: nat :: IsFree(pool, x) <==> first <= x < first + size
    {
      hide Inv, Rings, BitsMatch, PageSet, IsFree, NoTopRun, HoldsTopRun;
      EmptyPoolBroken(pool, first, first + size);
      PageRange(first, size);
      ok := FreeBlock(first * PAGE_SIZE, size * PAGE_SIZE);
    }
  }

  /** Size of the manager's record in bytes: two pointer arrays and three words. */
  const STRUCT_SIZE: nat := 4 * TOTAL_LEVEL + 8 * TOTAL_LEVEL + 12

  /** Rounding up to whole pages: the least number of pages that hold the bytes. */
  lemma PagesFor(bytes: nat)
    ensures var n := AlignTo(bytes, PAGE_SIZE) / PAGE_SIZE; forall x: nat :: x >= n <==> 4096 * x >= bytes
  {
    var n := (bytes + 4095) / 4096;
    assert AlignTo(bytes, PAGE_SIZE) == n * 4096 && n * 4096 / 4096 == n;
  }

  /** A naturally aligned run of 2^18 pages lies before page hi and wholly behind the given
      number of bytes from page first on. */
  ghost predicate RunBehind(first: nat, hi: nat, bytes: nat) {
    exists q: nat :: TopRunAt(first, hi, q) && 4096 * (q - first) >= bytes
  }

  /** The top-level runs behind the manager's own pages. */
  lemma RunsBehind(first: nat, cost: nat, hi: nat, bytes: nat)
    requires forall x: nat :: x >= cost <==> 4096 * x >= bytes
    ensures HoldsTopRun(first + cost, hi) <==> RunBehind(first, hi, bytes)
  {
    var lo := first + cost;
    if q: nat :| TopRunAt(lo, hi, q) {
      var x: nat := q - first;
      assert TopRunAt(first, hi, q) && x >= cost;
    }
    if q: nat :| TopRunAt(first, hi, q) && 4096 * (q - first) >= bytes {
      var x: nat := q - first;
      assert 4096 * x >= bytes;
      assert TopRunAt(first + cost, hi, q);
    }
  }

  /** Behind the ascending loop: the middle loop has work exactly when the donation fails there. */
  lemma TailSplits(pool: Pool, off: nat, size: nat)
    requires |pool| == TOTAL_LEVEL
    ensures size >= Pow2(TOTAL_LEVEL) ==> FreeAll(pool, Tail(off, size)) == None && Free(pool, off, TOTAL_LEVEL + 1) == None
    ensures size < Pow2(TOTAL_LEVEL) ==> Tail(off, size) == Descend(off, size, TOTAL_LEVEL)
  {
    hide Free, Pow2;
    if size >= Pow2(TOTAL_LEVEL) {
      assert Tail(off, size)[0] == Block(off, TOTAL_LEVEL + 1);
      FreeLeaves(pool, Block(off, TOTAL_LEVEL + 1));
    }
  }

  lemma PiecesRemain(off: nat, size: nat)
    ensures Pieces(off, size) == Remaining(off, size, 0)
  {
  }

  lemma NextPieceFits(pool: Pool, limit: nat, off: nat, hi: nat, i: nat, rest: seq<Block>)
    requires Inv(pool, limit) && hi <= limit && SpanTaken(pool, off, hi)
    requires Fits([Block(off, i)] + rest, off, hi)
    ensures i < TOTAL_LEVEL ==>
      Aligned(off, i) && off + Pow2(i) <= hi && BlockTaken(pool, off, i) && Fits(rest, off + Pow2(i), hi)
    ensures Free(pool, off, i) == None ==> FreeAll(pool, [Block(off, i)] + rest) == None
    ensures Free(pool, off, i).Some? ==>
      var after := Free(pool, off, i).value;
      && i < TOTAL_LEVEL
      && FreeAll(after, rest) == FreeAll(pool, [Block(off, i)] + rest)
      && SpanTaken(after, off + Pow2(i), hi)
      && forall x :: IsFree(pool, x) ==> IsFree(after, x)
  {
    var all := [Block(off, i)] + rest;
    assert all[1..] == rest;
    if i < TOTAL_LEVEL {
      forall x: nat ensures Base(x, i) == off <==> off <= x < off + Pow2(i) {
        BaseIsRunStart(x, off, i);
      }
    }
    if Free(pool, off, i).Some? {
      FreeAddsBlock(pool, limit, off, i);
    }
  }

  lemma PageRange(p: nat, n: nat)
    ensures FirstPage(p * PAGE_SIZE) == p && PageCount(n * PAGE_SIZE) == n
  {
  }

  lemma EmptyHead(w: Words, heads: nat, pool: Pool, limit: nat, k: nat)
    requires Inv(pool, limit) && Rings(w, heads, pool) && k < TOTAL_LEVEL
    ensures Ring(w, heads + k, Nodes(pool[k])) && InMemory(w, heads + k)
    ensures Nodes(pool[k]) == [] <==> pool[k] == []
  {
    Neighbours(w, heads + k, Nodes(pool[k]), -1);
  }

  lemma FirstOfList(w: Words, heads: nat, pool: Pool, limit: nat, k: nat)
    requires Inv(pool, limit) && Rings(w, heads, pool) && UNITS * limit <= heads
    requires k < TOTAL_LEVEL && pool[k] != []
    ensures var p, n := pool[k][0], UNITS * pool[k][0];
            && p < limit && Aligned(p, k)
            && InMemory(w, heads + k) && w.second[heads + k] == n && n / UNITS == p
            && InMemory(w, n) && InMemory(w, w.first[n]) && InMemory(w, w.second[n]) && w.first[n] != n
  {
    Neighbours(w, heads + k, Nodes(pool[k]), -1);
    UnlinkPage(w, heads, pool, limit, k, pool[k][0]);
    assert pool[k][0] in pool[k];
  }

  /** The upper half of a block taken for splitting can be returned and finds no buddy. */
  lemma SplitFits(pool: Pool, limit: nat, k: nat)
    requires Inv(pool, limit) && k < TOTAL_LEVEL && pool[k] == [] && Alloc(pool, k + 1).0.Some?
    ensures Alloc(pool, k + 1).1.Some?
    ensures var rest, q := Alloc(pool, k + 1).1.value, FlipBit(Alloc(pool, k + 1).0.value, k);
            && Inv(rest, limit) && Aligned(q, k) && q + Pow2(k) <= limit && BlockTaken(rest, q, k)
            && Free(rest, q, k).Some?
            && (forall x :: IsFree(rest, x) ==> IsFree(pool, x))
            && forall x :: IsFree(Free(rest, q, k).value, x) ==> IsFree(pool, x)
  {
    AllocTakesBlock(pool, limit, k + 1);
    AllocTakesBlock(pool, limit, k);
    var p, rest := Alloc(pool, k + 1).0.value, Alloc(pool, k + 1).1.value;
    AlignedBelow(p, k, k + 1);
    BuddyHalves(p, k);
    forall x ensures Base(x, k) == FlipBit(p, k) ==> !IsFree(rest, x) {
      RunSplits(x, p, k);
    }
  }

  lemma SplitStaysInside(w: Words, u: Words, v: Words, heads: nat, before: Pool, rest: Pool, after: Pool)
    requires |before| == |rest| == |after| == TOTAL_LEVEL
    requires SameOutside(w, u, heads, before) && SameOutside(u, v, heads, after)
    requires forall x :: IsFree(after, x) ==> IsFree(before, x)
    ensures SameOutside(w, v, heads, before)
  {
    OwnedGrows(heads, after, before);
    forall a | !Owned(heads, before, a) ensures SameAt(w, v, a) {
      assert SameAt(w, u, a) && SameAt(u, v, a);
    }
  }

  lemma FreeOnlyAdds(pool: Pool, limit: nat, p: nat, k: nat)
    requires Inv(pool, limit) && Aligned(p, k) && p + Pow2(k) <= limit && BlockTaken(pool, p, k)
    requires Free(pool, p, k).Some?
    ensures forall x :: IsFree(pool, x) ==> IsFree(Free(pool, p, k).value, x)
  {
    FreeAddsBlock(pool, limit, p, k);
  }

  lemma ZeroBitsMatch(bytes: seq<Byte>, pool: Pool, limit: nat)
    requires limit > 0 && |bytes| == Start(limit, TOTAL_LEVEL) && |pool| == TOTAL_LEVEL
    requires forall i :: 0 <= i < |bytes| ==> bytes[i] == 0
    requires forall k :: 0 <= k < TOTAL_LEVEL ==> pool[k] == []
    ensures BitsMatch(bytes, pool, limit)
  {
    forall k, p | 0 <= k < TOTAL_LEVEL && 0 <= p < limit && Aligned(p, k)
      ensures Place(limit, k, p) < 8 * |bytes| && !BitAt(bytes, Place(limit, k, p))
    {
      PlaceInLevel(limit, k, p);
      if k + 1 < TOTAL_LEVEL {
        StartMonotone(limit, k + 1, TOTAL_LEVEL);
      }
      ZeroHasNoBits(Place(limit, k, p) % 8);
    }
  }

  lemma {:induction false} ZeroHasNoBits(i: nat)
    ensures !TestBit(0, i)
  {
    if i > 0 {
      ZeroHasNoBits(i - 1);
    }
  }
}
