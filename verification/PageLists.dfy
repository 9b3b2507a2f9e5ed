/** The free lists of the page manager as rings in memory, and its pair bits as bytes. */
module PageLists {
  import opened Pages
  import opened Sequences
  import opened Buddy
  import opened Donate
  import opened Lists
  import opened Bitmaps

  ghost function NodeOf(page: nat): int {
    UNITS * page
  }

  /** The list nodes of free pages stand at the start of the page. */
  ghost function Nodes(pages: seq<nat>): (r: seq<int>)
    ensures |r| == |pages|
    ensures forall i :: 0 <= i < |pages| ==> r[i] == UNITS * pages[i]
  {
    Image(NodeOf, pages)
  }

  /** Every level's list head, at unit heads + k, carries a ring of exactly its free blocks. */
  ghost predicate Rings(w: Words, heads: nat, pool: Pool)
    requires |pool| == TOTAL_LEVEL
  {
    forall k :: 0 <= k < TOTAL_LEVEL ==> Ring(w, heads + k, Nodes(pool[k]))
  }

  /** Units the page manager may write: its list heads and the free pages. */
  ghost predicate Owned(heads: nat, pool: Pool, a: int)
    requires |pool| == TOTAL_LEVEL
  {
    heads <= a < heads + TOTAL_LEVEL || (0 <= a && IsFree(pool, a / UNITS))
  }

  ghost predicate SameOutside(w: Words, v: Words, heads: nat, pool: Pool)
    requires |pool| == TOTAL_LEVEL
  {
    && |v.first| == |w.first| && |v.second| == |w.second|
    && forall a :: !Owned(heads, pool, a) ==> SameAt(w, v, a)
  }

  lemma NodeIsOwned(pool: Pool, limit: nat, k: nat, n: int)
    requires Inv(pool, limit) && k < TOTAL_LEVEL && n in Nodes(pool[k])
    ensures 0 <= n < UNITS * limit && n % UNITS == 0 && n / UNITS in pool[k] && IsFree(pool, n / UNITS)
  {
    var i :| 0 <= i < |pool[k]| && n == Nodes(pool[k])[i];
    var p := pool[k][i];
    assert p in pool[k] && Base(p, k) == p && n / UNITS == p;
  }

  /** Lists of different levels share no node. */
  lemma ListsApart(pool: Pool, limit: nat, k: nat, j: nat, p: nat)
    requires Inv(pool, limit) && k < TOTAL_LEVEL && j < TOTAL_LEVEL && j != k
    requires p in pool[k]
    ensures p !in pool[j]
  {
    assert p in pool[j] ==> Aligned(p, j);
    assert k < j ==> Base(p, j) !in pool[j];
  }

  lemma UnlinkPage(w: Words, heads: nat, pool: Pool, limit: nat, k: nat, q: nat)
    requires Inv(pool, limit) && Rings(w, heads, pool) && UNITS * limit <= heads
    requires k < TOTAL_LEVEL && q in pool[k]
    ensures var n := UNITS * q;
            && InMemory(w, n) && InMemory(w, w.first[n]) && InMemory(w, w.second[n]) && w.first[n] != n
            && Rings(Unlinked(w, n), heads, pool[k := Remove(pool[k], q)])
            && SameOutside(w, Unlinked(w, n), heads, pool)
  {
    var n := UNITS * q;
    UnlinkHere(w, heads + k, pool[k], q);
    var v, after := Unlinked(w, n), pool[k := Remove(pool[k], q)];
    forall j | 0 <= j < TOTAL_LEVEL && j != k ensures Ring(v, heads + j, Nodes(after[j])) {
      OtherListSame(w, v, heads, pool, limit, k, j);
    }
    forall a | !Owned(heads, pool, a) ensures SameAt(w, v, a) {
      if a in Nodes(pool[k]) {
        NodeIsOwned(pool, limit, k, a);
      }
    }
  }

  lemma UnlinkHere(w: Words, h: nat, pages: seq<nat>, q: nat)
    requires q in pages && NoDup(pages) && Ring(w, h, Nodes(pages))
    ensures var n := UNITS * q;
            && InMemory(w, n) && InMemory(w, w.first[n]) && InMemory(w, w.second[n]) && w.first[n] != n
            && Ring(Unlinked(w, n), h, Nodes(Remove(pages, q)))
            && forall a :: a != h && a !in Nodes(pages) ==> SameAt(w, Unlinked(w, n), a)
  {
    hide Ring, SameAt;
    var i :| 0 <= i < |pages| && pages[i] == q;
    UnlinkedRing(w, h, Nodes(pages), i);
    ImageRemove(NodeOf, pages, i);
  }

  /** A change confined to the nodes of one list leaves the other lists alone. */
  lemma OtherListSame(w: Words, v: Words, heads: nat, pool: Pool, limit: nat, k: nat, j: nat)
    requires Inv(pool, limit) && Rings(w, heads, pool) && UNITS * limit <= heads
    requires k < TOTAL_LEVEL && j < TOTAL_LEVEL && j != k
    requires forall a :: a != heads + k && a !in Nodes(pool[k]) && (a == heads + j || a in Nodes(pool[j])) ==> SameAt(w, v, a)
    ensures Ring(v, heads + j, Nodes(pool[j]))
  {
    forall a | a == heads + j || a in Nodes(pool[j]) ensures SameAt(w, v, a) {
      if a in Nodes(pool[j]) {
        NodeIsOwned(pool, limit, j, a);
        ListsApart(pool, limit, j, k, a / UNITS);
      }
      if a in Nodes(pool[k]) {
        NodeIsOwned(pool, limit, k, a);
      }
    }
    RingFrame(w, v, heads + j, Nodes(pool[j]));
  }

  lemma LinkPage(w: Words, heads: nat, pool: Pool, limit: nat, k: nat, p: nat)
    requires Inv(pool, limit) && Rings(w, heads, pool) && UNITS * limit <= heads
    requires k < TOTAL_LEVEL && p < limit && !IsFree(pool, p) && Aligned(p, k)
    ensures var n := UNITS * p;
            && InMemory(w, heads + k) && InMemory(w, w.second[heads + k]) && InMemory(w, n)
            && Rings(Linked(w, heads + k, n), heads, pool[k := [p] + pool[k]])
            && |Linked(w, heads + k, n).first| == |w.first| && |Linked(w, heads + k, n).second| == |w.second|
            && forall a :: !Owned(heads, pool, a) && a != n ==> SameAt(w, Linked(w, heads + k, n), a)
  {
    var n := UNITS * p;
    Neighbours(w, heads + k, Nodes(pool[k]), -1);
    forall j | 0 <= j < TOTAL_LEVEL ensures n !in Nodes(pool[j]) {
      if n in Nodes(pool[j]) {
        NodeIsOwned(pool, limit, j, n);
      }
    }
    LinkedRing(w, heads + k, n, Nodes(pool[k]));
    var v, after := Linked(w, heads + k, n), pool[k := [p] + pool[k]];
    assert Nodes(after[k]) == [n] + Nodes(pool[k]);
    forall j | 0 <= j < TOTAL_LEVEL && j != k ensures Ring(v, heads + j, Nodes(after[j])) {
      OtherListSame(w, v, heads, pool, limit, k, j);
    }
    forall a | !Owned(heads, pool, a) && a != n ensures SameAt(w, v, a) {
      if a in Nodes(pool[k]) {
        NodeIsOwned(pool, limit, k, a);
      }
    }
  }

  // ----- pair bits -----

  /** Bytes of the bitmap of level k: one bit per pair, rounded up to whole bytes. */
  function LevelBytes(limit: nat, k: nat): nat
    requires limit > 0
  {
    AlignTo(Shr(limit - 1, k + 1) + 1, 8) / 8
  }

  /** First byte of the bitmap of level k: the bitmaps follow each other. */
  function Start(limit: nat, k: nat): nat
    requires limit > 0
  {
    if k == 0 then 0 else Start(limit, k - 1) + LevelBytes(limit, k - 1)
  }

  /** Position of the bit of the pair that holds p at level k. */
  function Place(limit: nat, k: nat, p: nat): nat
    requires limit > 0
  {
    8 * Start(limit, k) + Shr(p, k + 1)
  }

  /** The start bytes of the first n bitmaps. */
  function Layout(limit: nat, n: nat): (r: seq<nat>)
    requires limit > 0
    ensures |r| == n
  {
    if n == 0 then [] else Layout(limit, n - 1) + [Start(limit, n - 1)]
  }

  lemma {:induction false} LayoutAt(limit: nat, n: nat, k: nat)
    requires limit > 0 && k < n
    ensures Layout(limit, n)[k] == Start(limit, k)
  {
    if k < n - 1 {
      LayoutAt(limit, n - 1, k);
    }
  }

  lemma {:induction false} StartMonotone(limit: nat, k: nat, j: nat)
    requires limit > 0 && k < j
    ensures Start(limit, k) + LevelBytes(limit, k) <= Start(limit, j)
  {
    if k + 1 < j {
      StartMonotone(limit, k, j - 1);
    }
  }

  lemma PlaceInLevel(limit: nat, k: nat, p: nat)
    requires p < limit
    ensures 8 * Start(limit, k) <= Place(limit, k, p) < 8 * Start(limit, k + 1)
    ensures Start(limit, k) + Shr(p, k + 1) / 8 < Start(limit, k + 1)
  {
    hide AlignTo, Shr;
    ShrMonotone(p, limit - 1, k + 1);
    WholeBytes(Shr(limit - 1, k + 1));
  }

  /** The bitmaps follow each other, and each has the fewest bytes with a bit for all its pairs. */
  lemma BitmapsExact(limit: nat, k: nat)
    requires limit > 0
    ensures Start(limit, 0) == 0
    ensures var pairs, size := (limit - 1) / Pow2(k + 1) + 1, Start(limit, k + 1) - Start(limit, k);
            8 * (size - 1) < pairs <= 8 * size
  {
    hide AlignTo, Pow2, Shr;
    ShrDivides(limit - 1, k + 1);
    WholeBytes(Shr(limit - 1, k + 1));
  }

  lemma WholeBytes(last: nat)
    ensures 8 * (AlignTo(last + 1, 8) / 8 - 1) <= last < 8 * (AlignTo(last + 1, 8) / 8)
  {
    var b := (last + 8) / 8;
    assert AlignTo(last + 1, 8) == 8 * b && 8 * b / 8 == b;
  }

  /** Two blocks share a pair bit exactly when they are of one level and equal or buddies. */
  lemma PlaceIff(limit: nat, k: nat, p: nat, j: nat, q: nat)
    requires p < limit && q < limit && Aligned(p, k) && Aligned(q, j)
    ensures Place(limit, k, p) == Place(limit, j, q) <==> k == j && (q == p || q == FlipBit(p, k))
  {
    PlaceInLevel(limit, k, p);
    PlaceInLevel(limit, j, q);
    if k < j {
      StartMonotone(limit, k, j);
    } else if j < k {
      StartMonotone(limit, j, k);
    } else {
      PairIndex(p, q, k);
    }
  }

  /** Each pair bit is the exclusive or of the two buddies' free flags. */
  ghost predicate BitsMatch(bytes: seq<Byte>, pool: Pool, limit: nat)
    requires |pool| == TOTAL_LEVEL
  {
    && limit > 0
    && Start(limit, TOTAL_LEVEL) <= |bytes|
    && forall k, p {:trigger Place(limit, k, p)} :: 0 <= k < TOTAL_LEVEL && 0 <= p < limit && Aligned(p, k) ==>
         Place(limit, k, p) < 8 * |bytes| &&
         (BitAt(bytes, Place(limit, k, p)) <==> ((p in pool[k]) != (FlipBit(p, k) in pool[k])))
  }

  /** Toggling the bit of a pair answers the arrival or departure of one of the two. */
  lemma ToggledBitsMatch(bytes: seq<Byte>, now: seq<Byte>, pool: Pool, after: Pool, limit: nat, k: nat, p: nat)
    requires |pool| == |after| == TOTAL_LEVEL && k < TOTAL_LEVEL && p < limit && Aligned(p, k)
    requires BitsMatch(bytes, pool, limit) && Toggled(bytes, now, Place(limit, k, p))
    requires forall j :: 0 <= j < TOTAL_LEVEL && j != k ==> after[j] == pool[j]
    requires forall q :: q != p && q != FlipBit(p, k) ==> (q in after[k] <==> q in pool[k])
    requires ((p in after[k]) != (FlipBit(p, k) in after[k])) != ((p in pool[k]) != (FlipBit(p, k) in pool[k]))
    ensures BitsMatch(now, after, limit)
  {
    BuddyHalves(p, k);
    forall j, q | 0 <= j < TOTAL_LEVEL && 0 <= q < limit && Aligned(q, j)
      ensures Place(limit, j, q) < 8 * |now|
      ensures BitAt(now, Place(limit, j, q)) <==> ((q in after[j]) != (FlipBit(q, j) in after[j]))
    {
      PlaceIff(limit, k, p, j, q);
      BuddyHalves(q, j);
    }
  }

  // ----- all parts together -----

  /** The concrete state that represents a pool. */
  ghost predicate Represents(w: Words, bytes: seq<Byte>, spare: int, heads: nat, pool: Pool, limit: nat) {
    && |pool| == TOTAL_LEVEL && UNITS * limit <= heads
    && Inv(pool, limit)
    && Rings(w, heads, pool)
    && BitsMatch(bytes, pool, limit)
    && spare == PAGE_SIZE * |PageSet(pool, limit)|
  }

  ghost predicate Toggled(bytes: seq<Byte>, now: seq<Byte>, at: nat) {
    && |now| == |bytes|
    && forall i :: 0 <= i < 8 * |bytes| ==>
      (BitAt(now, i) <==> if i == at then !BitAt(bytes, i) else BitAt(bytes, i))
  }

  lemma DropCounts(pool: Pool, rest: Pool, limit: nat, q: nat, k: nat)
    requires Inv(pool, limit) && k < TOTAL_LEVEL && q in pool[k]
    requires rest == pool[k := Remove(pool[k], q)]
    ensures |PageSet(rest, limit)| == |PageSet(pool, limit)| - Pow2(k)
  {
    DropBlock(pool, limit, q, k, rest);
    assert forall x :: Base(x, k) == q ==> IsFree(pool, x);
    CountBlock(rest, pool, limit, q, k);
  }

  /** Taking block q off its list; the toggled bit is that of q's pair. */
  lemma Unlisted(w: Words, bytes: seq<Byte>, now: seq<Byte>, spare: int, heads: nat, pool: Pool, limit: nat, k: nat, q: nat)
    requires Represents(w, bytes, spare, heads, pool, limit)
    requires k < TOTAL_LEVEL && q in pool[k] && q < limit && Toggled(bytes, now, Place(limit, k, q))
    ensures var n := UNITS * q;
            && InMemory(w, n) && InMemory(w, w.first[n]) && InMemory(w, w.second[n]) && w.first[n] != n
            && Represents(Unlinked(w, n), now, spare - PAGE_SIZE * Pow2(k), heads, pool[k := Remove(pool[k], q)], limit)
            && SameOutside(w, Unlinked(w, n), heads, pool)
  {
    var rest := pool[k := Remove(pool[k], q)];
    RemoveKeeps(pool[k], q);
    DropBlock(pool, limit, q, k, rest);
    DropCounts(pool, rest, limit, q, k);
    UnlinkPage(w, heads, pool, limit, k, q);
    BuddyHalves(q, k);
    ToggledBitsMatch(bytes, now, pool, rest, limit, k, q);
  }

  /** Listing block p, whose buddy is not listed. */
  lemma Listed(w: Words, bytes: seq<Byte>, now: seq<Byte>, spare: int, heads: nat, pool: Pool, limit: nat, k: nat, p: nat)
    requires Represents(w, bytes, spare, heads, pool, limit)
    requires k < TOTAL_LEVEL && Aligned(p, k) && p + Pow2(k) <= limit && BlockTaken(pool, p, k)
    requires FlipBit(p, k) !in pool[k] && Toggled(bytes, now, Place(limit, k, p))
    ensures var n := UNITS * p;
            && n != heads + k && InMemory(w, heads + k) && InMemory(w, w.second[heads + k]) && InMemory(w, n)
            && Represents(Linked(w, heads + k, n), now, spare + PAGE_SIZE * Pow2(k), heads, pool[k := [p] + pool[k]], limit)
            && SameOutside(w, Linked(w, heads + k, n), heads, pool[k := [p] + pool[k]])
  {
    hide Inv, Rings, BitsMatch, Toggled, IsFree, BlockTaken, SameOutside, Owned, Linked, PageSet, Pow2;
    var after := pool[k := [p] + pool[k]];
    FreeSetup(pool, limit, p, k);
    AddBlock(pool, limit, p, k, after);
    CountBlock(pool, after, limit, p, k);
    LinkPage(w, heads, pool, limit, k, p);
    ListedBits(bytes, now, pool, limit, k, p);
    assert Aligned(p, k) ==> IsFree(after, p);
    ListedOutside(w, Linked(w, heads + k, UNITS * p), heads, pool, after, p);
  }

  lemma ListedBits(bytes: seq<Byte>, now: seq<Byte>, pool: Pool, limit: nat, k: nat, p: nat)
    requires |pool| == TOTAL_LEVEL && BitsMatch(bytes, pool, limit)
    requires k < TOTAL_LEVEL && Aligned(p, k) && p < limit && p !in pool[k] && FlipBit(p, k) !in pool[k]
    requires Toggled(bytes, now, Place(limit, k, p))
    ensures BitsMatch(now, pool[k := [p] + pool[k]], limit)
  {
    hide BitsMatch, Toggled;
    var after := pool[k := [p] + pool[k]];
    BuddyHalves(p, k);
    ToggledBitsMatch(bytes, now, pool, after, limit, k, p);
  }

  lemma ListedOutside(w: Words, v: Words, heads: nat, pool: Pool, after: Pool, p: nat)
    requires |pool| == |after| == TOTAL_LEVEL && IsFree(after, p)
    requires forall x :: IsFree(pool, x) ==> IsFree(after, x)
    requires |v.first| == |w.first| && |v.second| == |w.second|
    requires forall a :: !Owned(heads, pool, a) && a != UNITS * p ==> SameAt(w, v, a)
    ensures SameOutside(w, v, heads, after)
  {
    assert (UNITS * p) / UNITS == p;
    OwnedGrows(heads, pool, after);
  }

  lemma OwnedGrows(heads: nat, small: Pool, large: Pool)
    requires |small| == |large| == TOTAL_LEVEL
    requires forall x :: IsFree(small, x) ==> IsFree(large, x)
    ensures forall a :: Owned(heads, small, a) ==> Owned(heads, large, a)
  {
  }

  lemma SameOutsideSelf(w: Words, heads: nat, pool: Pool)
    requires |pool| == TOTAL_LEVEL && |w.first| == |w.second|
    ensures SameOutside(w, w, heads, pool)
  {
  }

  /** Two steps that write only where the later pool allows. */
  lemma SameOutsideTwice(w: Words, u: Words, v: Words, heads: nat, small: Pool, large: Pool)
    requires |small| == |large| == TOTAL_LEVEL
    requires SameOutside(w, u, heads, small) && SameOutside(u, v, heads, large)
    requires forall x :: IsFree(small, x) ==> IsFree(large, x)
    ensures SameOutside(w, v, heads, large)
  {
    OwnedGrows(heads, small, large);
    forall a | !Owned(heads, large, a) ensures SameAt(w, v, a) {
      assert SameAt(w, u, a) && SameAt(u, v, a);
    }
  }
}
