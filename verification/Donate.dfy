/** Counting free pages, and donating an arbitrary range of pages block by block. */
module Donate {
  import opened Pages
  import opened Sequences
  import opened Buddy

  // ----- counting -----

  ghost function PageSet(pool: Pool, limit: nat): set<nat>
    requires |pool| == TOTAL_LEVEL
  {
    set x: nat | x < limit && IsFree(pool, x)
  }

  /** The pages from lo up to hi. */
  ghost function Span(lo: nat, hi: nat): (r: set<nat>)
    requires lo <= hi
    ensures forall x :: x in r <==> lo <= x < hi
    ensures |r| == hi - lo
    decreases hi - lo
  {
    if lo == hi then {} else {lo} + Span(lo + 1, hi)
  }

  /** Free pages are below the limit, so PageSet holds all of them. */
  lemma FreeBelowLimit(pool: Pool, limit: nat, x: nat)
    requires Inv(pool, limit) && IsFree(pool, x)
    ensures x < limit
  {
    var k :| 0 <= k < TOTAL_LEVEL && Base(x, k) in pool[k];
    AlignedBase(x, k);
  }

  /** Adding one block to the free pages adds 2^k to their number. */
  lemma CountBlock(small: Pool, large: Pool, limit: nat, p: nat, k: nat)
    requires Inv(small, limit) && Inv(large, limit) && Aligned(p, k) && p + Pow2(k) <= limit
    requires BlockTaken(small, p, k)
    requires forall x :: IsFree(large, x) <==> IsFree(small, x) || Base(x, k) == p
    ensures |PageSet(large, limit)| == |PageSet(small, limit)| + Pow2(k)
  {
    var run := Span(p, p + Pow2(k));
    forall x: nat ensures x in run <==> Base(x, k) == p {
      BaseIsRunStart(x, p, k);
    }
    assert PageSet(large, limit) == PageSet(small, limit) + run;
    assert PageSet(small, limit) !! run;
  }

  /** Returning a block raises the number of free pages by its size. */
  lemma FreeCounts(pool: Pool, limit: nat, p: nat, k: nat)
    requires Inv(pool, limit) && Aligned(p, k) && p + Pow2(k) <= limit && BlockTaken(pool, p, k)
    requires Free(pool, p, k).Some?
    ensures |PageSet(Free(pool, p, k).value, limit)| == |PageSet(pool, limit)| + Pow2(k)
  {
    FreeAddsBlock(pool, limit, p, k);
    CountBlock(pool, Free(pool, p, k).value, limit, p, k);
  }

  /** Taking a block lowers the number of free pages by its size. */
  lemma AllocCounts(pool: Pool, limit: nat, k: nat)
    requires Inv(pool, limit) && Alloc(pool, k).0.Some?
    ensures Alloc(pool, k).1.Some?
    ensures |PageSet(Alloc(pool, k).1.value, limit)| == |PageSet(pool, limit)| - Pow2(k)
  {
    AllocTakesBlock(pool, limit, k);
    CountBlock(Alloc(pool, k).1.value, pool, limit, Alloc(pool, k).0.value, k);
  }

  // ----- cutting a range into aligned blocks -----

  datatype Block = Block(page: nat, level: nat)

  /** The ascending loop: cut where a bit of the offset is set. */
  function Ascend(off: nat, size: nat, i: nat): (seq<Block>, nat, nat)
    decreases TOTAL_LEVEL + 1 - i, size
  {
    if i > TOTAL_LEVEL then ([], off, size)
    else if TestBit(off, i) && size >= Pow2(i) then
      var (blocks, o, s) := Ascend(off + Pow2(i), size - Pow2(i), i + 1);
      ([Block(off, i)] + blocks, o, s)
    else Ascend(off, size, i + 1)
  }

  /** The descending loop over the levels below n: cut where the size allows. */
  function Descend(off: nat, size: nat, n: nat): seq<Block>
    decreases n, size
  {
    if n == 0 then []
    else if size >= Pow2(n - 1) then
      [Block(off, n - 1)] + Descend(off + Pow2(n - 1), size - Pow2(n - 1), n - 1)
    else Descend(off, size, n - 1)
  }

  /** The middle loop and the descending one.  The counter still stands one above the last
      level of the ascending loop when the middle loop frees whole top-level runs. */
  function Tail(off: nat, size: nat): seq<Block>
    decreases size
  {
    if size >= Pow2(TOTAL_LEVEL) then
      [Block(off, TOTAL_LEVEL + 1)] + Tail(off + Pow2(TOTAL_LEVEL), size - Pow2(TOTAL_LEVEL))
    else Descend(off, size, TOTAL_LEVEL)
  }

  /** What is left to cut while the ascending loop stands at level i. */
  function Remaining(off: nat, size: nat, i: nat): seq<Block> {
    var (low, o, s) := Ascend(off, size, i);
    low + Tail(o, s)
  }

  /** The blocks cut from a range. */
  function Pieces(off: nat, size: nat): seq<Block> {
    Remaining(off, size, 0)
  }

  /** The blocks follow each other without gap or overlap from lo to hi, each aligned to its
      own size and of a level that has a list. */
  predicate Tiles(blocks: seq<Block>, lo: nat, hi: nat) {
    if blocks == [] then lo == hi
    else
      var b := blocks[0];
      b.page == lo && b.level < TOTAL_LEVEL && Aligned(lo, b.level) && Tiles(blocks[1..], lo + Pow2(b.level), hi)
  }

  lemma {:induction false} TilesAppend(a: seq<Block>, b: seq<Block>, lo: nat, mid: nat, hi: nat)
    requires Tiles(a, lo, mid) && Tiles(b, mid, hi)
    ensures Tiles(a + b, lo, hi)
  {
    if a == [] {
      assert a + b == b;
    } else {
      TilesAppend(a[1..], b, lo + Pow2(a[0].level), mid, hi);
      assert (a + b)[1..] == a[1..] + b;
    }
  }

  /** Either the offset is aligned to the level reached (j == i), or what is left of the
      range is too small to ever reach its next set bit (level j). */
  ghost predicate Settled(off: nat, size: nat, i: nat, j: nat) {
    j <= i && Aligned(off, j) && (j < i ==> size < Pow2(j))
  }

  /** A whole top-level run, naturally aligned, lies in [lo, hi) from page q on. */
  predicate TopRunAt(lo: nat, hi: nat, q: nat) {
    Aligned(q, TOTAL_LEVEL) && lo <= q && q + Pow2(TOTAL_LEVEL) <= hi
  }

  ghost predicate HoldsTopRun(lo: nat, hi: nat) {
    exists q: nat :: TopRunAt(lo, hi, q)
  }

  lemma HoldsMore(lo: nat, mid: nat, hi: nat)
    requires lo <= mid
    ensures HoldsTopRun(mid, hi) ==> HoldsTopRun(lo, hi)
  {
    if q: nat :| TopRunAt(mid, hi, q) {
      assert TopRunAt(lo, hi, q);
    }
  }

  lemma AlignedHolds(off: nat, size: nat)
    ensures Aligned(off, TOTAL_LEVEL) && size >= Pow2(TOTAL_LEVEL) ==> HoldsTopRun(off, off + size)
  {
    if Aligned(off, TOTAL_LEVEL) && size >= Pow2(TOTAL_LEVEL) {
      assert TopRunAt(off, off + size, off);
    }
  }

  /** One round of the ascending loop that cuts a block. */
  lemma CutLow(off: nat, size: nat, i: nat)
    requires Aligned(off, i) && TestBit(off, i) && size >= Pow2(i) && i <= TOTAL_LEVEL && !HoldsTopRun(off, off + size)
    ensures i < TOTAL_LEVEL && Aligned(off + Pow2(i), i + 1)
  {
    BitDecidesAlignment(off, i);
    AlignedHolds(off, size);
  }

  /** One round that cuts nothing. */
  lemma KeepLow(off: nat, size: nat, i: nat, j: nat)
    requires Settled(off, size, i, j) && !(TestBit(off, i) && size >= Pow2(i))
    ensures Settled(off, size, i + 1, if j == i && !TestBit(off, i) then i + 1 else j)
  {
    if j == i {
      BitDecidesAlignment(off, i);
    }
  }

  lemma {:induction false} AscendTiles(off: nat, size: nat, i: nat, j: nat) returns (last: nat)
    requires Settled(off, size, i, j) && !HoldsTopRun(off, off + size) && i <= TOTAL_LEVEL + 1
    ensures var (blocks, o, s) := Ascend(off, size, i);
            Tiles(blocks, off, o) && o + s == off + size && s <= size && Settled(o, s, TOTAL_LEVEL + 1, last)
    decreases TOTAL_LEVEL + 1 - i
  {
    hide TestBit, Aligned, Pow2, HoldsTopRun;
    last := j;
    if i <= TOTAL_LEVEL {
      if TestBit(off, i) && size >= Pow2(i) {
        if j < i {
          Pow2Monotone(j, i);
        }
        CutLow(off, size, i);
        HoldsMore(off, off + Pow2(i), off + size);
        last := AscendTiles(off + Pow2(i), size - Pow2(i), i + 1, i + 1);
      } else {
        KeepLow(off, size, i, j);
        last := AscendTiles(off, size, i + 1, if j == i && !TestBit(off, i) then i + 1 else j);
      }
    }
  }

  /** One round of the descending loop. */
  lemma CutHigh(off: nat, size: nat, n: nat, j: nat)
    requires n > 0 && Settled(off, size, n, j) && size < Pow2(n)
    ensures size >= Pow2(n - 1) ==> Aligned(off, n - 1) && Settled(off + Pow2(n - 1), size - Pow2(n - 1), n - 1, n - 1)
    ensures size < Pow2(n - 1) ==> Settled(off, size, n - 1, if j == n then n - 1 else j)
  {
    if j == n {
      AlignedBelow(off, n - 1, n);
    } else if j < n - 1 {
      Pow2Monotone(j, n - 1);
    }
    if Aligned(off, n - 1) {
      BitDecidesAlignment(off, n - 1);
    }
  }

  lemma {:induction false} DescendTiles(off: nat, size: nat, n: nat, j: nat)
    requires n <= TOTAL_LEVEL && size < Pow2(n)
    requires Settled(off, size, n, j)
    ensures Tiles(Descend(off, size, n), off, off + size)
    decreases n
  {
    if n > 0 {
      CutHigh(off, size, n, j);
      if size >= Pow2(n - 1) {
        DescendTiles(off + Pow2(n - 1), size - Pow2(n - 1), n - 1, n - 1);
      } else {
        DescendTiles(off, size, n - 1, if j == n then n - 1 else j);
      }
    }
  }

  /** Once the ascending loop has passed, a range without a top-level run is short. */
  lemma ShortAtEnd(o: nat, s: nat, last: nat) returns (j: nat)
    requires Settled(o, s, TOTAL_LEVEL + 1, last) && !HoldsTopRun(o, o + s)
    ensures s < Pow2(TOTAL_LEVEL) && Settled(o, s, TOTAL_LEVEL, j)
  {
    if last > TOTAL_LEVEL {
      AlignedBelow(o, TOTAL_LEVEL, TOTAL_LEVEL + 1);
      j := TOTAL_LEVEL;
      AlignedHolds(o, s);
    } else {
      Pow2Monotone(last, TOTAL_LEVEL);
      j := last;
    }
  }

  /** A range without a top-level run is cut into an exact tiling. */
  lemma PiecesTile(off: nat, size: nat)
    requires !HoldsTopRun(off, off + size)
    ensures Tiles(Pieces(off, size), off, off + size)
  {
    hide Pow2, HoldsTopRun, Aligned;
    assert Aligned(off, 0) by { AlignedToOne(off); }
    var last := AscendTiles(off, size, 0, 0);
    var (low, o, s) := Ascend(off, size, 0);
    TilesForward(low, off, o);
    HoldsMore(off, o, off + size);
    var j := ShortAtEnd(o, s, last);
    DescendTiles(o, s, TOTAL_LEVEL, j);
    TilesAppend(low, Descend(o, s, TOTAL_LEVEL), off, o, off + size);
  }

  lemma AlignedToOne(p: nat)
    ensures Aligned(p, 0)
  {
  }

  /** Blocks that follow each other from lo inside [lo, hi), each aligned to its own size, up
      to the first one of a level that has no list. */
  predicate Fits(blocks: seq<Block>, lo: nat, hi: nat) {
    if blocks == [] then lo == hi
    else
      var b := blocks[0];
      b.page == lo && (b.level < TOTAL_LEVEL ==>
        Aligned(lo, b.level) && lo + Pow2(b.level) <= hi && Fits(blocks[1..], lo + Pow2(b.level), hi))
  }

  /** Some block is of a level that has no list. */
  predicate LeavesTable(blocks: seq<Block>) {
    exists b <- blocks :: b.level >= TOTAL_LEVEL
  }

  /** Distinct pages of one alignment are a run apart. */
  lemma AlignedApart(p: nat, q: nat, i: nat)
    requires Aligned(p, i) && Aligned(q, i) && p < q
    ensures p + Pow2(i) <= q
  {
    BaseIsRunStart(q, p, i);
  }

  /** One round of the ascending loop in front of a top-level run. */
  lemma RoundBelowTopRun(off: nat, hi: nat, i: nat, q: nat)
    requires Aligned(off, i) && i < TOTAL_LEVEL && TopRunAt(off, hi, q)
    ensures TestBit(off, i) ==> Aligned(off + Pow2(i), i + 1) && TopRunAt(off + Pow2(i), hi, q)
    ensures !TestBit(off, i) ==> Aligned(off, i + 1)
  {
    BitDecidesAlignment(off, i);
    AlignedBelow(q, i, TOTAL_LEVEL);
    AlignedBelow(q, i + 1, TOTAL_LEVEL);
    if TestBit(off, i) {
      AlignedApart(off, q, i);
    }
  }

  /** A range with a top-level run is cut in order until a block leaves the table. */
  lemma {:induction false} TopRunIsCut(off: nat, size: nat, i: nat, q: nat)
    requires Aligned(off, i) && i <= TOTAL_LEVEL && TopRunAt(off, off + size, q)
    ensures Fits(Remaining(off, size, i), off, off + size) && LeavesTable(Remaining(off, size, i))
    decreases TOTAL_LEVEL - i
  {
    hide Pow2, Aligned;
    RemainingStep(off, size, i);
    if i < TOTAL_LEVEL {
      RoundBelowTopRun(off, off + size, i, q);
      if TestBit(off, i) {
        var rest := Remaining(off + Pow2(i), size - Pow2(i), i + 1);
        TopRunIsCut(off + Pow2(i), size - Pow2(i), i + 1, q);
        CutInFront(Block(off, i), rest, off, off + size);
      } else {
        TopRunIsCut(off, size, i + 1, q);
      }
    } else {
      RemainingEnd(off, size, i + 1);
      FirstLeaves(Remaining(off, size, i), off, off + size);
    }
  }

  lemma CutInFront(b: Block, rest: seq<Block>, lo: nat, hi: nat)
    requires b.page == lo && b.level < TOTAL_LEVEL && Aligned(lo, b.level) && lo + Pow2(b.level) <= hi
    requires Fits(rest, lo + Pow2(b.level), hi) && LeavesTable(rest)
    ensures Fits([b] + rest, lo, hi) && LeavesTable([b] + rest)
  {
    var c :| c in rest && c.level >= TOTAL_LEVEL;
    assert c in [b] + rest;
  }

  lemma FirstLeaves(blocks: seq<Block>, lo: nat, hi: nat)
    requires blocks != [] && blocks[0].page == lo && blocks[0].level >= TOTAL_LEVEL
    ensures Fits(blocks, lo, hi) && LeavesTable(blocks)
  {
    assert blocks[0] in blocks;
  }

  lemma {:induction false} TilesFit(blocks: seq<Block>, lo: nat, hi: nat)
    requires Tiles(blocks, lo, hi)
    ensures Fits(blocks, lo, hi) && !LeavesTable(blocks)
  {
    if blocks != [] {
      TilesForward(blocks[1..], lo + Pow2(blocks[0].level), hi);
      TilesFit(blocks[1..], lo + Pow2(blocks[0].level), hi);
      assert blocks == [blocks[0]] + blocks[1..];
    }
  }

  /** The three loops tile a range of any size exactly when it holds no whole top-level run;
      otherwise they cut it in order up to a block of a level without a list. */
  lemma PiecesTileIff(off: nat, size: nat)
    ensures Tiles(Pieces(off, size), off, off + size) <==> !HoldsTopRun(off, off + size)
    ensures LeavesTable(Pieces(off, size)) <==> HoldsTopRun(off, off + size)
    ensures Fits(Pieces(off, size), off, off + size)
  {
    hide Tiles, Fits, LeavesTable, TopRunAt, Pow2;
    var hi := off + size;
    if q: nat :| TopRunAt(off, hi, q) {
      AlignedToOne(off);
      TopRunIsCut(off, size, 0, q);
      if Tiles(Pieces(off, size), off, off + size) {
        TilesFit(Pieces(off, size), off, off + size);
      }
    } else {
      PiecesTile(off, size);
      TilesFit(Pieces(off, size), off, off + size);
    }
  }

  // ----- returning the pieces -----

  function FreeAll(pool: Pool, blocks: seq<Block>): (r: Option<Pool>)
    requires |pool| == TOTAL_LEVEL
    ensures r.Some? ==> |r.value| == TOTAL_LEVEL
    decreases blocks
  {
    if blocks == [] then Some(pool)
    else
      var rest := Free(pool, blocks[0].page, blocks[0].level);
      if rest == None then None else FreeAll(rest.value, blocks[1..])
  }

  /** The top-level run around q has a page that is neither free nor in [lo, hi). */
  ghost predicate TopRunBroken(pool: Pool, lo: nat, hi: nat, q: nat)
    requires |pool| == TOTAL_LEVEL
  {
    exists x: nat :: Base(x, TOTAL_LEVEL) == Base(q, TOTAL_LEVEL) && !IsFree(pool, x) && !(lo <= x < hi)
  }

  /** Making the pages of [lo, hi) free leaves no top-level pair wholly free. */
  ghost predicate NoTopRun(pool: Pool, lo: nat, hi: nat)
    requires |pool| == TOTAL_LEVEL
  {
    forall q: nat :: TopRunBroken(pool, lo, hi, q)
  }

  ghost predicate SpanTaken(pool: Pool, lo: nat, hi: nat)
    requires |pool| == TOTAL_LEVEL
  {
    forall x: nat :: lo <= x < hi ==> !IsFree(pool, x)
  }

  /** Exactly the pages of [lo, hi) became free. */
  ghost predicate Freed(before: Pool, after: Pool, lo: nat, hi: nat)
    requires |before| == |after| == TOTAL_LEVEL
  {
    forall x: nat :: IsFree(after, x) <==> IsFree(before, x) || lo <= x < hi
  }

  /** The first piece of such a range can be returned without leaving the table. */
  lemma PieceFits(pool: Pool, limit: nat, lo: nat, hi: nat, k: nat)
    requires Inv(pool, limit) && k < TOTAL_LEVEL && Aligned(lo, k) && lo + Pow2(k) <= hi <= limit
    requires SpanTaken(pool, lo, hi) && NoTopRun(pool, lo, hi)
    ensures BlockTaken(pool, lo, k) && Free(pool, lo, k).Some?
    ensures forall x: nat :: Base(x, k) == lo <==> lo <= x < lo + Pow2(k)
  {
    forall x: nat ensures Base(x, k) == lo <==> lo <= x < lo + Pow2(k) {
      BaseIsRunStart(x, lo, k);
    }
    FreeOverflowsIff(pool, limit, lo, k);
    assert TopRunBroken(pool, lo, hi, lo);
    var x: nat :| Base(x, TOTAL_LEVEL) == Base(lo, TOTAL_LEVEL) && !IsFree(pool, x) && !(lo <= x < hi);
    assert Base(x, k) != lo;
  }

  lemma TopRunsStay(pool: Pool, after: Pool, lo: nat, mid: nat, hi: nat)
    requires |pool| == |after| == TOTAL_LEVEL && lo <= mid
    requires NoTopRun(pool, lo, hi)
    requires forall x: nat :: IsFree(after, x) <==> IsFree(pool, x) || lo <= x < mid <= hi
    ensures NoTopRun(after, mid, hi)
  {
    forall q: nat ensures TopRunBroken(after, mid, hi, q) {
      assert TopRunBroken(pool, lo, hi, q);
      var x: nat :| Base(x, TOTAL_LEVEL) == Base(q, TOTAL_LEVEL) && !IsFree(pool, x) && !(lo <= x < hi);
      assert !IsFree(after, x);
    }
  }

  lemma FreePiece(pool: Pool, limit: nat, lo: nat, hi: nat, k: nat)
    requires Inv(pool, limit) && k < TOTAL_LEVEL && Aligned(lo, k) && lo + Pow2(k) <= hi <= limit
    requires SpanTaken(pool, lo, hi) && NoTopRun(pool, lo, hi)
    ensures BlockTaken(pool, lo, k) && Free(pool, lo, k).Some?
    ensures var after := Free(pool, lo, k).value;
            && Inv(after, limit) && SpanTaken(after, lo + Pow2(k), hi) && NoTopRun(after, lo + Pow2(k), hi)
            && forall x: nat :: IsFree(after, x) <==> IsFree(pool, x) || lo <= x < lo + Pow2(k)
  {
    PieceFits(pool, limit, lo, hi, k);
    FreeAddsBlock(pool, limit, lo, k);
    TopRunsStay(pool, Free(pool, lo, k).value, lo, lo + Pow2(k), hi);
  }

  /** Donating a range that completes no top-level run frees exactly its pages, keeps the
      invariant and never overflows. */
  lemma {:induction false} FreeAllAdds(pool: Pool, limit: nat, blocks: seq<Block>, lo: nat, hi: nat)
    requires Inv(pool, limit) && Tiles(blocks, lo, hi) && hi <= limit
    requires SpanTaken(pool, lo, hi) && NoTopRun(pool, lo, hi)
    ensures FreeAll(pool, blocks).Some?
    ensures var after := FreeAll(pool, blocks).value; Inv(after, limit) && Freed(pool, after, lo, hi)
    decreases blocks
  {
    if blocks != [] {
      var k := blocks[0].level;
      TilesForward(blocks[1..], lo + Pow2(k), hi);
      FreePiece(pool, limit, lo, hi, k);
      FreeAllAdds(Free(pool, lo, k).value, limit, blocks[1..], lo + Pow2(k), hi);
    }
  }

  /** A donation that was carried out freed exactly the pages of the range. */
  lemma {:induction false} FreeAllMeans(pool: Pool, limit: nat, blocks: seq<Block>, lo: nat, hi: nat)
    requires Inv(pool, limit) && Tiles(blocks, lo, hi) && hi <= limit && SpanTaken(pool, lo, hi)
    requires FreeAll(pool, blocks).Some?
    ensures var after := FreeAll(pool, blocks).value; Inv(after, limit) && Freed(pool, after, lo, hi)
    decreases blocks
  {
    if blocks != [] {
      var k := blocks[0].level;
      TilesForward(blocks[1..], lo + Pow2(k), hi);
      forall x: nat ensures Base(x, k) == lo <==> lo <= x < lo + Pow2(k) {
        BaseIsRunStart(x, lo, k);
      }
      FreeAddsBlock(pool, limit, lo, k);
      FreeAllMeans(Free(pool, lo, k).value, limit, blocks[1..], lo + Pow2(k), hi);
    }
  }

  lemma {:induction false} LeavingFails(pool: Pool, blocks: seq<Block>)
    requires |pool| == TOTAL_LEVEL && LeavesTable(blocks)
    ensures FreeAll(pool, blocks) == None
    decreases blocks
  {
    hide Free;
    var b :| b in blocks && b.level >= TOTAL_LEVEL;
    if blocks[0].level >= TOTAL_LEVEL {
      FreeLeaves(pool, blocks[0]);
    } else {
      assert b in blocks[1..];
      var rest := Free(pool, blocks[0].page, blocks[0].level);
      if rest.Some? { LeavingFails(rest.value, blocks[1..]); }
    }
  }

  lemma FreeLeaves(pool: Pool, b: Block)
    requires |pool| == TOTAL_LEVEL && b.level >= TOTAL_LEVEL
    ensures Free(pool, b.page, b.level) == None
  {
  }

  /** Maximal coalescing in the pool after the donation leaves every top-level run broken. */
  lemma NoTopRunAfter(pool: Pool, after: Pool, limit: nat, lo: nat, hi: nat)
    requires |pool| == TOTAL_LEVEL && Inv(after, limit) && Freed(pool, after, lo, hi)
    ensures NoTopRun(pool, lo, hi)
  {
    forall q: nat ensures TopRunBroken(pool, lo, hi, q) {
      TopRunNotFree(after, limit, q);
      var x: nat :| Base(x, TOTAL_LEVEL) == Base(q, TOTAL_LEVEL) && !IsFree(after, x);
      assert !IsFree(pool, x) && !(lo <= x < hi);
    }
  }

  lemma BrokenRunsHoldNone(pool: Pool, lo: nat, hi: nat)
    requires |pool| == TOTAL_LEVEL && NoTopRun(pool, lo, hi)
    ensures !HoldsTopRun(lo, hi)
  {
    if q: nat :| TopRunAt(lo, hi, q) {
      assert TopRunBroken(pool, lo, hi, q);
      var x: nat :| Base(x, TOTAL_LEVEL) == Base(q, TOTAL_LEVEL) && !IsFree(pool, x) && !(lo <= x < hi);
      BaseIsRunStart(x, q, TOTAL_LEVEL);
    }
  }

  /** A range of taken pages of any size can be donated exactly when no top-level run becomes
      wholly free; then exactly its pages become free. */
  lemma DonationIff(pool: Pool, limit: nat, lo: nat, n: nat)
    requires Inv(pool, limit) && lo + n <= limit && SpanTaken(pool, lo, lo + n)
    ensures FreeAll(pool, Pieces(lo, n)).Some? <==> NoTopRun(pool, lo, lo + n)
    ensures FreeAll(pool, Pieces(lo, n)).Some? ==>
      var after := FreeAll(pool, Pieces(lo, n)).value; Inv(after, limit) && Freed(pool, after, lo, lo + n)
  {
    hide Pieces, FreeAll, Inv, NoTopRun, SpanTaken, Freed, HoldsTopRun, LeavesTable, Tiles;
    var blocks := Pieces(lo, n);
    PoolHasLists(pool, limit);
    PiecesTileIff(lo, n);
    if HoldsTopRun(lo, lo + n) {
      LeavingFails(pool, blocks);
      if NoTopRun(pool, lo, lo + n) { BrokenRunsHoldNone(pool, lo, lo + n); }
    } else {
      if NoTopRun(pool, lo, lo + n) { FreeAllAdds(pool, limit, blocks, lo, lo + n); }
      if FreeAll(pool, blocks).Some? {
        FreeAllMeans(pool, limit, blocks, lo, lo + n);
        NoTopRunAfter(pool, FreeAll(pool, blocks).value, limit, lo, lo + n);
      }
    }
  }

  lemma PoolHasLists(pool: Pool, limit: nat)
    requires Inv(pool, limit)
    ensures |pool| == TOTAL_LEVEL
  {
  }

  lemma {:induction false} TilesForward(blocks: seq<Block>, lo: nat, hi: nat)
    requires Tiles(blocks, lo, hi)
    ensures lo <= hi
  {
    if blocks != [] {
      TilesForward(blocks[1..], lo + Pow2(blocks[0].level), hi);
    }
  }

  /** In an empty pool a range completes a top-level run exactly when it holds one. */
  lemma EmptyPoolBroken(pool: Pool, lo: nat, hi: nat)
    requires |pool| == TOTAL_LEVEL && lo <= hi
    requires forall x :: !IsFree(pool, x)
    ensures NoTopRun(pool, lo, hi) <==> !HoldsTopRun(lo, hi)
  {
    if NoTopRun(pool, lo, hi) {
      BrokenRunsHoldNone(pool, lo, hi);
    } else {
      var q: nat :| !TopRunBroken(pool, lo, hi, q);
      var b := Base(q, TOTAL_LEVEL);
      AlignedBase(q, TOTAL_LEVEL);
      BaseIsRunStart(b, b, TOTAL_LEVEL);
      BaseIsRunStart(b + Pow2(TOTAL_LEVEL) - 1, b, TOTAL_LEVEL);
      assert TopRunAt(lo, hi, b);
    }
  }

  lemma RemainingStep(off: nat, size: nat, i: nat)
    requires i <= TOTAL_LEVEL
    ensures Remaining(off, size, i) ==
      if TestBit(off, i) && size >= Pow2(i) then [Block(off, i)] + Remaining(off + Pow2(i), size - Pow2(i), i + 1)
      else Remaining(off, size, i + 1)
  {
  }

  lemma RemainingEnd(off: nat, size: nat, i: nat)
    requires i > TOTAL_LEVEL
    ensures Remaining(off, size, i) == Tail(off, size)
  {
  }

  // ----- rounding -----

  function AlignTo(val: nat, alignment: nat): nat
    requires alignment > 0
  {
    ((val + alignment - 1) / alignment) * alignment
  }

  function AlignDown(val: nat, alignment: nat): nat
    requires alignment > 0
  {
    val / alignment * alignment
  }

  /** Index of the first page donated for a range starting at a byte address. */
  function FirstPage(addr: nat): (p: nat)
    ensures addr <= PAGE_SIZE * p < addr + PAGE_SIZE
  {
    AlignTo(addr, PAGE_SIZE) / PAGE_SIZE
  }

  /** Number of whole pages in a size given in bytes. */
  function PageCount(bytes: nat): (n: nat)
    ensures PAGE_SIZE * n <= bytes < PAGE_SIZE * (n + 1)
  {
    AlignDown(bytes, PAGE_SIZE) / PAGE_SIZE
  }

  /** The range actually donated starts at the next page boundary but keeps the rounded
      length, so it stays inside the caller's range only if the bytes skipped at the front
      do not exceed the bytes dropped from the length. */
  lemma DonationInsideIff(addr: nat, size: nat)
    ensures AlignTo(addr, PAGE_SIZE) + AlignDown(size, PAGE_SIZE) <= addr + size
            <==> addr % PAGE_SIZE == 0 || PAGE_SIZE - addr % PAGE_SIZE <= size % PAGE_SIZE
  {
  }

  /** A page-sized range at address 1 is donated as the page after it. */
  lemma DonationOutside()
    ensures AlignTo(1, PAGE_SIZE) + AlignDown(PAGE_SIZE, PAGE_SIZE) == 2 * PAGE_SIZE > 1 + PAGE_SIZE
  {
  }
}
