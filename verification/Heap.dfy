/** The boundary-tag heap as functions on rows of blocks, bins and the page pool. */
module Heap {
  import opened Pages
  import opened Sequences
  import opened Buddy
  import opened Rows

  /** Number of bins: payload sizes from 1 to ARR_LEN units. */
  const ARR_LEN: nat := 510

  /** A block header: a held page and the offset in it. */
  datatype Addr = Addr(page: nat, off: nat)

  datatype Heap = Heap(rows: map<nat, Row>, bins: seq<seq<Addr>>, pool: Pool)

  // ----- reading -----

  predicate HeaderAt(rows: map<nat, Row>, a: Addr) {
    a.page in rows && a.off in rows[a.page]
  }

  function At(rows: map<nat, Row>, a: Addr): Header
    requires HeaderAt(rows, a)
  {
    rows[a.page][a.off]
  }

  predicate FreeAt(rows: map<nat, Row>, a: Addr) {
    HeaderAt(rows, a) && !At(rows, a).used
  }

  /** A block that the program has been given and not yet returned. */
  predicate LiveAt(rows: map<nat, Row>, a: Addr) {
    HeaderAt(rows, a) && At(rows, a).used && At(rows, a).size > 0
  }

  /** The live blocks with their payload sizes. */
  ghost function Live(rows: map<nat, Row>): imap<Addr, nat> {
    imap a | LiveAt(rows, a) :: At(rows, a).size
  }

  // ----- invariant -----

  /** Each free block is listed once, in exactly the bin of its size. */
  ghost predicate Binned(rows: map<nat, Row>, bins: seq<seq<Addr>>) {
    && |bins| == ARR_LEN
    && (forall id, a :: 0 <= id < ARR_LEN && a in bins[id] ==> FreeAt(rows, a) && At(rows, a).size == id + 1)
    && (forall a :: FreeAt(rows, a) ==> 1 <= At(rows, a).size <= ARR_LEN && a in bins[At(rows, a).size - 1])
    && (forall id :: 0 <= id < ARR_LEN ==> NoDup(bins[id]))
  }

  /** The top-level run around q has a page that is neither free nor held. */
  ghost predicate RunReserved(rows: map<nat, Row>, pool: Pool, q: nat)
    requires |pool| == TOTAL_LEVEL
  {
    exists x: nat :: Base(x, TOTAL_LEVEL) == Base(q, TOTAL_LEVEL) && !IsFree(pool, x) && x !in rows
  }

  /** Held pages are below the limit and not free in the page manager. */
  ghost predicate PagesApart(rows: map<nat, Row>, pool: Pool, limit: nat) {
    && Inv(pool, limit)
    && (forall x :: x in rows ==> x < limit && !IsFree(pool, x))
    && (forall q: nat :: RunReserved(rows, pool, q))
  }

  ghost predicate RowsInv(rows: map<nat, Row>) {
    forall x :: x in rows ==> RowInv(rows[x])
  }

  ghost predicate HInv(h: Heap, limit: nat) {
    && |h.bins| == ARR_LEN && |h.pool| == TOTAL_LEVEL
    && RowsInv(h.rows)
    && Binned(h.rows, h.bins)
    && PagesApart(h.rows, h.pool, limit)
  }

  // ----- steps -----

  /** Takes a free block out of its bin. */
  function MarkUsed(h: Heap, a: Addr): Heap
    requires HeaderAt(h.rows, a) && 1 <= At(h.rows, a).size <= |h.bins|
  {
    var id := At(h.rows, a).size - 1;
    Heap(h.rows[a.page := SetUsed(h.rows[a.page], a.off, true)], h.bins[id := Remove(h.bins[id], a)], h.pool)
  }

  /** Puts a block at the front of the bin of its size. */
  function MarkFree(h: Heap, a: Addr): Heap
    requires HeaderAt(h.rows, a) && 1 <= At(h.rows, a).size <= |h.bins|
  {
    var id := At(h.rows, a).size - 1;
    Heap(h.rows[a.page := SetUsed(h.rows[a.page], a.off, false)], h.bins[id := [a] + h.bins[id]], h.pool)
  }

  function WithRow(h: Heap, page: nat, r: Row): Heap {
    h.(rows := h.rows[page := r])
  }

  // ----- what the steps keep -----

  lemma FreeBlockBounds(h: Heap, limit: nat, a: Addr)
    requires HInv(h, limit) && FreeAt(h.rows, a)
    ensures a.off < LAST && 1 <= At(h.rows, a).size <= ARR_LEN && a in h.bins[At(h.rows, a).size - 1]
  {
    assert Placed(h.rows[a.page], a.off);
  }

  lemma UsedBlockBounds(h: Heap, limit: nat, a: Addr)
    requires HInv(h, limit) && LiveAt(h.rows, a)
    ensures a.off < LAST && 1 <= At(h.rows, a).size <= ARR_LEN
    ensures var r := h.rows[a.page];
            && Next(r, a.off) in r && Next(r, a.off) <= LAST
            && (r[a.off].prev != NULL ==> 0 <= r[a.off].prev < a.off && r[a.off].prev in r && Next(r, r[a.off].prev) == a.off)
            && (r[a.off].prev == NULL <==> a.off == 0)
  {
    assert Placed(h.rows[a.page], a.off);
  }

  lemma BinsWithout(rows: map<nat, Row>, now: map<nat, Row>, bins: seq<seq<Addr>>, a: Addr, id: nat)
    requires Binned(rows, bins) && FreeAt(rows, a) && id == At(rows, a).size - 1 < ARR_LEN
    requires forall b :: FreeAt(now, b) <==> FreeAt(rows, b) && b != a
    requires forall b :: FreeAt(now, b) ==> At(now, b).size == At(rows, b).size
    ensures Binned(now, bins[id := Remove(bins[id], a)])
  {
    RemoveKeeps(bins[id], a);
    var left := bins[id := Remove(bins[id], a)];
    forall i, b | 0 <= i < ARR_LEN && b in left[i] ensures FreeAt(now, b) && At(now, b).size == i + 1 {
      assert b in bins[i];
      assert FreeAt(rows, b) && b != a;
    }
  }

  lemma BinsWith(rows: map<nat, Row>, now: map<nat, Row>, bins: seq<seq<Addr>>, a: Addr, id: nat)
    requires Binned(rows, bins) && !FreeAt(rows, a) && FreeAt(now, a) && id == At(now, a).size - 1 < ARR_LEN
    requires forall b :: FreeAt(now, b) <==> FreeAt(rows, b) || b == a
    requires forall b :: FreeAt(rows, b) ==> FreeAt(now, b) && At(now, b).size == At(rows, b).size
    ensures Binned(now, bins[id := [a] + bins[id]])
  {
    var more := bins[id := [a] + bins[id]];
    assert a !in bins[id];
    forall i, b | 0 <= i < ARR_LEN && b in more[i] ensures FreeAt(now, b) && At(now, b).size == i + 1 {
      if b != a {
        assert b in bins[i];
      }
    }
  }

  lemma MarkUsedKeeps(h: Heap, limit: nat, a: Addr)
    requires HInv(h, limit) && FreeAt(h.rows, a)
    ensures 1 <= At(h.rows, a).size <= ARR_LEN
    ensures HInv(MarkUsed(h, a), limit)
    ensures Live(MarkUsed(h, a).rows) == Live(h.rows)[a := At(h.rows, a).size]
  {
    hide Binned, PagesApart, RowInv;
    FreeBlockBounds(h, limit, a);
    SetUsedKeeps(h.rows[a.page], a.off);
    var g := MarkUsed(h, a);
    OnlyAt(h.rows, g.rows, a);
    BinsWithout(h.rows, g.rows, h.bins, a, At(h.rows, a).size - 1);
    SamePagesApart(h.rows, g.rows, h.pool, limit);
  }

  /** Rewriting the flag of one header. */
  lemma OnlyAt(rows: map<nat, Row>, now: map<nat, Row>, a: Addr)
    requires HeaderAt(rows, a)
    requires HeaderAt(now, a) && now == rows[a.page := Put(rows[a.page], a.off, At(now, a))]
    ensures forall b :: HeaderAt(now, b) <==> HeaderAt(rows, b)
    ensures forall b :: HeaderAt(rows, b) && b != a ==> At(now, b) == At(rows, b)
  {
  }

  /** Marking blocks does not touch the page bookkeeping. */
  lemma SamePagesApart(rows: map<nat, Row>, now: map<nat, Row>, pool: Pool, limit: nat)
    requires PagesApart(rows, pool, limit) && forall x :: x in rows <==> x in now
    ensures PagesApart(now, pool, limit)
  {
    forall q: nat ensures RunReserved(now, pool, q) {
      assert RunReserved(rows, pool, q);
    }
  }

  lemma MarkFreeKeeps(h: Heap, limit: nat, a: Addr)
    requires HInv(h, limit) && LiveAt(h.rows, a)
    requires var r := h.rows[a.page];
             && Next(r, a.off) in r && r[Next(r, a.off)].used
             && (r[a.off].prev != NULL ==> r[a.off].prev in r && r[r[a.off].prev].used)
             && (r[a.off].prev == NULL ==> Next(r, a.off) != LAST)
    ensures At(h.rows, a).size <= ARR_LEN
    ensures HInv(MarkFree(h, a), limit)
    ensures Live(MarkFree(h, a).rows) == Live(h.rows) - {a}
  {
    hide Binned, PagesApart, RowInv;
    UsedBlockBounds(h, limit, a);
    SetFreeKeeps(h.rows[a.page], a.off);
    var g := MarkFree(h, a);
    OnlyAt(h.rows, g.rows, a);
    BinsWith(h.rows, g.rows, h.bins, a, At(h.rows, a).size - 1);
    SamePagesApart(h.rows, g.rows, h.pool, limit);
  }

  /** Replacing a row by one with the same free blocks. */
  lemma WithRowKeeps(h: Heap, limit: nat, page: nat, r: Row)
    requires HInv(h, limit) && page in h.rows && RowInv(r)
    requires forall o :: (o in r && !r[o].used) <==> (o in h.rows[page] && !h.rows[page][o].used)
    requires forall o :: o in r && !r[o].used ==> r[o].size == h.rows[page][o].size
    ensures HInv(WithRow(h, page, r), limit)
  {
    var g := WithRow(h, page, r);
    forall a ensures FreeAt(g.rows, a) <==> FreeAt(h.rows, a) {}
    SamePagesApart(h.rows, g.rows, h.pool, limit);
  }

  // ----- freeing -----

  /** Takes the free block f out of its bin and joins the block at offset o of its page with
      the block after it; f is one of the two. */
  function Join(h: Heap, f: Addr, o: nat): Heap
    requires |h.bins| == ARR_LEN && FreeAt(h.rows, f) && 1 <= At(h.rows, f).size <= ARR_LEN
    requires var r := h.rows[f.page]; o in r && Next(r, o) in r && Next(r, Next(r, o)) in r
  {
    var g := MarkUsed(h, f);
    WithRow(g, f.page, Merge(g.rows[f.page], o))
  }

  lemma JoinKeeps(h: Heap, limit: nat, f: Addr, o: nat)
    requires HInv(h, limit) && FreeAt(h.rows, f) && o in h.rows[f.page]
    requires var r := h.rows[f.page];
             && Next(r, o) in r && (f.off == o || f.off == Next(r, o))
             && (f.off == o ==> LiveAt(h.rows, Addr(f.page, Next(r, o))))
             && (f.off != o ==> LiveAt(h.rows, Addr(f.page, o)))
    ensures 1 <= At(h.rows, f).size <= ARR_LEN
    ensures Next(h.rows[f.page], Next(h.rows[f.page], o)) in h.rows[f.page]
    ensures var g := Join(h, f, o);
            && HInv(g, limit) && LiveAt(g.rows, Addr(f.page, o))
            && g.rows[f.page].Keys < h.rows[f.page].Keys
            && Live(g.rows) - {Addr(f.page, o)} == Live(h.rows) - {Addr(f.page, o), Addr(f.page, Next(h.rows[f.page], o))}
            && g.pool == h.pool && g.rows.Keys == h.rows.Keys
  {
    hide Binned, PagesApart, Live;
    FreeBlockBounds(h, limit, f);
    MarkUsedKeeps(h, limit, f);
    var g := MarkUsed(h, f);
    var r := g.rows[f.page];
    var p := Next(r, o);
    JoinRow(h, limit, f, o);
    MergeKeeps(r, o);
    WithRowKeeps(g, limit, f.page, Merge(r, o));
    JoinLive(h, f, o);
  }

  /** The two neighbours once both are used. */
  lemma JoinRow(h: Heap, limit: nat, f: Addr, o: nat)
    requires HInv(h, limit) && FreeAt(h.rows, f) && 1 <= At(h.rows, f).size <= ARR_LEN
    requires o in h.rows[f.page] && HInv(MarkUsed(h, f), limit)
    requires var r := h.rows[f.page];
             && Next(r, o) in r && (f.off == o || f.off == Next(r, o))
             && (f.off == o ==> LiveAt(h.rows, Addr(f.page, Next(r, o))))
             && (f.off != o ==> LiveAt(h.rows, Addr(f.page, o)))
    ensures var r := MarkUsed(h, f).rows[f.page];
            && o in r && Next(r, o) in r && Next(r, Next(r, o)) in r
            && RowInv(r) && o != LAST && r[o].used && Next(r, o) != LAST && r[Next(r, o)].used
            && Next(r, o) == Next(h.rows[f.page], o)
            && Next(r, Next(r, o)) == Next(h.rows[f.page], Next(h.rows[f.page], o))
  {
    hide Binned, PagesApart;
    var r := MarkUsed(h, f).rows[f.page];
    assert Placed(r, o) && Placed(r, Next(r, o));
  }

  /** Only the two joined blocks change their standing. */
  lemma JoinLive(h: Heap, f: Addr, o: nat)
    requires |h.bins| == ARR_LEN && FreeAt(h.rows, f) && 1 <= At(h.rows, f).size <= ARR_LEN
    requires var r := h.rows[f.page];
             o in r && Next(r, o) in r && Next(r, Next(r, o)) in r && (f.off == o || f.off == Next(r, o))
    requires Next(h.rows[f.page], o) != o && Next(h.rows[f.page], Next(h.rows[f.page], o)) > o
    ensures var g, p := Join(h, f, o), Next(h.rows[f.page], o);
            && LiveAt(g.rows, Addr(f.page, o))
            && g.rows[f.page].Keys < h.rows[f.page].Keys
            && g.pool == h.pool && g.rows.Keys == h.rows.Keys
            && Live(g.rows) - {Addr(f.page, o)} == Live(h.rows) - {Addr(f.page, o), Addr(f.page, p)}
  {
    var g, p := Join(h, f, o), Next(h.rows[f.page], o);
    assert p !in g.rows[f.page];
    assert forall x :: x in g.rows[f.page] <==> x in h.rows[f.page] && x != p;
    forall b: Addr | b.page != f.page || (b.off != o && b.off != p)
      ensures LiveAt(g.rows, b) <==> LiveAt(h.rows, b)
      ensures LiveAt(g.rows, b) ==> At(g.rows, b).size == At(h.rows, b).size
    {
    }
  }

  /** The page of a block that fills it alone goes back to the page manager. */
  lemma DropKeeps(h: Heap, limit: nat, a: Addr)
    requires HInv(h, limit) && LiveAt(h.rows, a) && a.off == 0 && Next(h.rows[a.page], 0) == LAST
    ensures Free(h.pool, a.page, 0).Some?
    ensures var g := Heap(h.rows - {a.page}, h.bins, Free(h.pool, a.page, 0).value);
            && HInv(g, limit)
            && Live(g.rows) == Live(h.rows) - {a}
            && forall x: nat :: IsFree(g.pool, x) <==> IsFree(h.pool, x) || x == a.page
  {
    var r := h.rows[a.page];
    forall o | o in r ensures o == 0 || o == LAST {
      assert Apart(r, 0, o) && Placed(r, o);
    }
    assert Placed(r, LAST);
    PageReturns(h, limit, a.page);
    hide Live;
    assert a == Addr(a.page, 0);
    RowLeaves(h.rows, h.bins, a.page);
  }

  /** A page whose only blocks are one used block and the protector carries no bin entry. */
  lemma RowLeaves(rows: map<nat, Row>, bins: seq<seq<Addr>>, p: nat)
    requires Binned(rows, bins) && p in rows
    requires forall o :: o in rows[p] ==> o == 0 || o == LAST
    requires LAST in rows[p] && rows[p][LAST].size == 0 && rows[p][LAST].used
    requires LiveAt(rows, Addr(p, 0))
    ensures Binned(rows - {p}, bins)
    ensures Live(rows - {p}) == Live(rows) - {Addr(p, 0)}
  {
    var now := rows - {p};
    forall b ensures FreeAt(now, b) <==> FreeAt(rows, b) {}
    forall b ensures FreeAt(now, b) ==> At(now, b) == At(rows, b) {}
    LiveLeaves(rows, p);
  }

  lemma LiveLeaves(rows: map<nat, Row>, p: nat)
    requires p in rows && forall o :: o in rows[p] ==> o == 0 || o == LAST
    requires LAST in rows[p] && rows[p][LAST].size == 0
    ensures Live(rows - {p}) == Live(rows) - {Addr(p, 0)}
  {
  }

  lemma PageReturns(h: Heap, limit: nat, page: nat)
    requires HInv(h, limit) && page in h.rows
    ensures Free(h.pool, page, 0).Some?
    ensures var pool := Free(h.pool, page, 0).value;
            && PagesApart(h.rows - {page}, pool, limit)
            && forall x: nat :: IsFree(pool, x) <==> IsFree(h.pool, x) || x == page
  {
    hide Binned, RowsInv;
    assert RunReserved(h.rows, h.pool, page);
    FreeOverflowsIff(h.pool, limit, page, 0);
    FreeAddsBlock(h.pool, limit, page, 0);
    var pool := Free(h.pool, page, 0).value;
    forall q: nat ensures RunReserved(h.rows - {page}, pool, q) {
      assert RunReserved(h.rows, h.pool, q);
      var x: nat :| Base(x, TOTAL_LEVEL) == Base(q, TOTAL_LEVEL) && !IsFree(h.pool, x) && x !in h.rows;
      assert !IsFree(pool, x) && x !in h.rows - {page};
    }
  }

  // The three ways of returning a live block, in the order they are tried.

  /** The block is alone between the start of its page and the protector. */
  ghost predicate FillsPage(h: Heap, a: Addr)
    requires HeaderAt(h.rows, a)
  {
    var r := h.rows[a.page];
    r[a.off].prev == NULL && Next(r, a.off) in r && r[Next(r, a.off)].size == 0 && r[Next(r, a.off)].used
  }

  ghost predicate PrevFree(h: Heap, a: Addr)
    requires HeaderAt(h.rows, a)
  {
    var r := h.rows[a.page];
    r[a.off].prev != NULL && 0 <= r[a.off].prev && r[a.off].prev in r && !r[r[a.off].prev].used
  }

  ghost predicate NextFree(h: Heap, a: Addr)
    requires HeaderAt(h.rows, a)
  {
    var r := h.rows[a.page];
    Next(r, a.off) in r && !r[Next(r, a.off)].used
  }

  lemma FillsPageMeans(h: Heap, limit: nat, a: Addr)
    requires HInv(h, limit) && LiveAt(h.rows, a)
    ensures FillsPage(h, a) <==> a.off == 0 && Next(h.rows[a.page], 0) == LAST
  {
    UsedBlockBounds(h, limit, a);
    var r := h.rows[a.page];
    assert Placed(r, Next(r, a.off));
  }

  lemma PrevJoins(h: Heap, limit: nat, a: Addr)
    requires HInv(h, limit) && LiveAt(h.rows, a) && PrevFree(h, a)
    ensures var p, r := h.rows[a.page][a.off].prev, h.rows[a.page];
            && FreeAt(h.rows, Addr(a.page, p)) && p < a.off && Next(r, p) == a.off
            && 1 <= r[p].size <= ARR_LEN && Next(r, a.off) in r
            && HInv(Join(h, Addr(a.page, p), p), limit)
            && LiveAt(Join(h, Addr(a.page, p), p).rows, Addr(a.page, p))
            && Join(h, Addr(a.page, p), p).rows[a.page].Keys < r.Keys
            && Live(Join(h, Addr(a.page, p), p).rows) - {Addr(a.page, p)} == Live(h.rows) - {a}
            && Join(h, Addr(a.page, p), p).pool == h.pool && Join(h, Addr(a.page, p), p).rows.Keys == h.rows.Keys
  {
    hide Binned, PagesApart, Join;
    UsedBlockBounds(h, limit, a);
    var p: nat := h.rows[a.page][a.off].prev;
    assert a == Addr(a.page, a.off);
    JoinKeeps(h, limit, Addr(a.page, p), p);
    assert !LiveAt(h.rows, Addr(a.page, p));
    assert Live(h.rows) - {Addr(a.page, p), a} == Live(h.rows) - {a};
  }

  lemma NextJoins(h: Heap, limit: nat, a: Addr)
    requires HInv(h, limit) && LiveAt(h.rows, a) && NextFree(h, a)
    ensures var r, n := h.rows[a.page], Next(h.rows[a.page], a.off);
            && n in r && FreeAt(h.rows, Addr(a.page, n))
            && 1 <= r[n].size <= ARR_LEN && Next(r, n) in r
            && HInv(Join(h, Addr(a.page, n), a.off), limit)
            && LiveAt(Join(h, Addr(a.page, n), a.off).rows, a)
            && Join(h, Addr(a.page, n), a.off).rows[a.page].Keys < r.Keys
            && Live(Join(h, Addr(a.page, n), a.off).rows) - {a} == Live(h.rows) - {a}
            && Join(h, Addr(a.page, n), a.off).pool == h.pool && Join(h, Addr(a.page, n), a.off).rows.Keys == h.rows.Keys
  {
    hide Binned, PagesApart, Join;
    var n := Next(h.rows[a.page], a.off);
    assert a == Addr(a.page, a.off);
    FreeBlockBounds(h, limit, Addr(a.page, n));
    JoinKeeps(h, limit, Addr(a.page, n), a.off);
    assert !LiveAt(h.rows, Addr(a.page, n));
    assert Live(h.rows) - {a, Addr(a.page, n)} == Live(h.rows) - {a};
  }

  lemma LoneFrees(h: Heap, limit: nat, a: Addr)
    requires HInv(h, limit) && LiveAt(h.rows, a) && !FillsPage(h, a) && !PrevFree(h, a) && !NextFree(h, a)
    ensures 1 <= At(h.rows, a).size <= ARR_LEN
    ensures HInv(MarkFree(h, a), limit)
    ensures Live(MarkFree(h, a).rows) == Live(h.rows) - {a}
  {
    hide Binned, PagesApart;
    UsedBlockBounds(h, limit, a);
    FillsPageMeans(h, limit, a);
    MarkFreeKeeps(h, limit, a);
  }

  /** Returning a live block. */
  ghost function FreeBlk(h: Heap, limit: nat, a: Addr): Heap
    requires HInv(h, limit) && LiveAt(h.rows, a)
    decreases h.rows[a.page].Keys
  {
    var r := h.rows[a.page];
    if FillsPage(h, a) then
      FillsPageMeans(h, limit, a);
      DropKeeps(h, limit, a);
      Heap(h.rows - {a.page}, h.bins, Free(h.pool, a.page, 0).value)
    else if PrevFree(h, a) then
      PrevJoins(h, limit, a);
      var p := Addr(a.page, r[a.off].prev);
      FreeBlk(Join(h, p, p.off), limit, p)
    else if NextFree(h, a) then
      NextJoins(h, limit, a);
      FreeBlk(Join(h, Addr(a.page, Next(r, a.off)), a.off), limit, a)
    else
      LoneFrees(h, limit, a);
      MarkFree(h, a)
  }

  /** Freeing keeps the invariant, takes exactly the freed block out of the live ones, and
      loses no page: what is no longer held is free in the page manager. */
  lemma {:induction false} FreeMeans(h: Heap, limit: nat, a: Addr)
    requires HInv(h, limit) && LiveAt(h.rows, a)
    ensures var g := FreeBlk(h, limit, a);
            && HInv(g, limit)
            && Live(g.rows) == Live(h.rows) - {a}
            && forall x: nat :: (IsFree(g.pool, x) || x in g.rows) <==> (IsFree(h.pool, x) || x in h.rows)
    decreases h.rows[a.page].Keys
  {
    hide Binned, PagesApart, Join, Live;
    var r := h.rows[a.page];
    if FillsPage(h, a) {
      FillsPageMeans(h, limit, a);
      DropKeeps(h, limit, a);
    } else if PrevFree(h, a) {
      PrevJoins(h, limit, a);
      var p := Addr(a.page, r[a.off].prev);
      FreeMeans(Join(h, p, p.off), limit, p);
    } else if NextFree(h, a) {
      NextJoins(h, limit, a);
      FreeMeans(Join(h, Addr(a.page, Next(r, a.off)), a.off), limit, a);
    } else {
      LoneFrees(h, limit, a);
    }
  }

  // ----- allocating -----

  /** Largest request, in units, that leaves a usable remainder of a fresh page. */
  const MAX_REQUEST: nat := UNITS - 4

  /** The first occupied bin from id on, ARR_LEN if there is none. */
  function FirstBin(bins: seq<seq<Addr>>, id: nat): (r: nat)
    requires id <= |bins|
    ensures id <= r <= |bins|
    ensures forall i :: id <= i < r ==> bins[i] == []
    ensures r < |bins| ==> bins[r] != []
    decreases |bins| - id
  {
    if id == |bins| || bins[id] != [] then id else FirstBin(bins, id + 1)
  }

  /** The bin a request of n units is served from: the exact size, the next one (handed out
      whole), else the first bin whose blocks can be cut. */
  function ChosenBin(bins: seq<seq<Addr>>, n: nat): nat
    requires |bins| == ARR_LEN && 1 <= n < ARR_LEN
  {
    if bins[n - 1] != [] then n - 1
    else if bins[n] != [] then n
    else FirstBin(bins, n + 1)
  }

  /** Cuts the used block a after n units and bins the rest. */
  function Cut(h: Heap, a: Addr, n: nat): Heap
    requires LiveAt(h.rows, a) && 1 <= n && n + 2 <= At(h.rows, a).size <= |h.bins|
    requires Next(h.rows[a.page], a.off) in h.rows[a.page]
  {
    MarkFree(WithRow(h, a.page, Split(h.rows[a.page], a.off, n)), Addr(a.page, a.off + 1 + n))
  }

  /** Opens page p for a request of n units. */
  function Open(h: Heap, p: nat, pool: Pool, n: nat): Heap
    requires 1 <= n <= MAX_REQUEST && |h.bins| == ARR_LEN
  {
    MarkFree(Heap(h.rows[p := NewRow(n)], h.bins, pool), Addr(p, 1 + n))
  }

  /** A request for n units: the block found, if any, and the heap afterwards. */
  ghost function MallocBlk(h: Heap, limit: nat, n: nat): (Option<Addr>, Heap)
    requires HInv(h, limit) && 1 <= n <= MAX_REQUEST
  {
    var id := ChosenBin(h.bins, n);
    if id < ARR_LEN then
      var a := h.bins[id][0];
      TakeKeeps(h, limit, id);
      if id <= n then (Some(a), MarkUsed(h, a))
      else
        CutKeeps(MarkUsed(h, a), limit, a, n);
        (Some(a), Cut(MarkUsed(h, a), a, n))
    else
      var (page, pool) := Alloc(h.pool, 0);
      if page == None || pool == None then (None, h)
      else (Some(Addr(page.value, 0)), Open(h, page.value, pool.value, n))
  }

  lemma TakeKeeps(h: Heap, limit: nat, id: nat)
    requires HInv(h, limit) && id < ARR_LEN && h.bins[id] != []
    ensures var a := h.bins[id][0];
            && FreeAt(h.rows, a) && At(h.rows, a).size == id + 1
            && HInv(MarkUsed(h, a), limit)
            && Live(MarkUsed(h, a).rows) == Live(h.rows)[a := id + 1]
            && LiveAt(MarkUsed(h, a).rows, a) && At(MarkUsed(h, a).rows, a).size == id + 1
            && !LiveAt(h.rows, a)
            && var r := MarkUsed(h, a).rows[a.page]; Next(r, a.off) in r && r[Next(r, a.off)].used
  {
    var a := h.bins[id][0];
    assert a in h.bins[id];
    assert Calm(h.rows[a.page], a.off);
    MarkUsedKeeps(h, limit, a);
  }

  lemma CutRow(h: Heap, limit: nat, a: Addr, n: nat)
    requires HInv(h, limit) && LiveAt(h.rows, a) && 1 <= n && n + 2 <= At(h.rows, a).size
    ensures var r := h.rows[a.page];
            && Next(r, a.off) in r && a.off + 1 + n !in r
            && RowInv(Split(r, a.off, n)) && HInv(WithRow(h, a.page, Split(r, a.off, n)), limit)
    ensures var s := Split(h.rows[a.page], a.off, n);
            && Next(s, a.off + 1 + n) in s && s[Next(s, a.off + 1 + n)].used == h.rows[a.page][Next(h.rows[a.page], a.off)].used
  {
    hide Binned, PagesApart;
    var r := h.rows[a.page];
    assert Placed(r, a.off);
    SplitKeeps(r, a.off, n);
    WithRowKeeps(h, limit, a.page, Split(r, a.off, n));
  }

  lemma CutKeeps(h: Heap, limit: nat, a: Addr, n: nat)
    requires HInv(h, limit) && LiveAt(h.rows, a) && 1 <= n && n + 2 <= At(h.rows, a).size
    requires Next(h.rows[a.page], a.off) in h.rows[a.page] ==> h.rows[a.page][Next(h.rows[a.page], a.off)].used
    ensures At(h.rows, a).size <= ARR_LEN && Next(h.rows[a.page], a.off) in h.rows[a.page]
    ensures HInv(Cut(h, a, n), limit)
    ensures Live(Cut(h, a, n).rows) == Live(h.rows)[a := n]
    ensures Cut(h, a, n).pool == h.pool && Cut(h, a, n).rows.Keys == h.rows.Keys
  {
    hide Binned, PagesApart, Live;
    UsedBlockBounds(h, limit, a);
    CutRow(h, limit, a, n);
    var g, b := WithRow(h, a.page, Split(h.rows[a.page], a.off, n)), Addr(a.page, a.off + 1 + n);
    CutLive(h, a, n);
    MarkFreeKeeps(g, limit, b);
    assert Live(h.rows)[a := n][b := At(g.rows, b).size] - {b} == Live(h.rows)[a := n];
  }

  lemma CutLive(h: Heap, a: Addr, n: nat)
    requires LiveAt(h.rows, a) && 1 <= n && n + 2 <= At(h.rows, a).size
    requires Next(h.rows[a.page], a.off) in h.rows[a.page] && a.off + 1 + n !in h.rows[a.page]
    ensures var g, b := WithRow(h, a.page, Split(h.rows[a.page], a.off, n)), Addr(a.page, a.off + 1 + n);
            && LiveAt(g.rows, b) && b !in Live(h.rows) && b != a && At(g.rows, b).prev == a.off
            && At(g.rows, Addr(a.page, a.off)).used
            && g.rows.Keys == h.rows.Keys
            && Live(g.rows) == Live(h.rows)[a := n][b := At(g.rows, b).size]
  {
  }

  lemma OpenKeeps(h: Heap, limit: nat, n: nat)
    requires HInv(h, limit) && 1 <= n <= MAX_REQUEST && Alloc(h.pool, 0).0.Some?
    ensures Alloc(h.pool, 0).1.Some?
    ensures var p, g := Alloc(h.pool, 0).0.value, Open(h, Alloc(h.pool, 0).0.value, Alloc(h.pool, 0).1.value, n);
            && HInv(g, limit) && p !in h.rows && p in g.rows
            && Live(g.rows) == Live(h.rows)[Addr(p, 0) := n]
            && forall x: nat :: (IsFree(g.pool, x) || x in g.rows) <==> (IsFree(h.pool, x) || x in h.rows)
  {
    hide Live;
    AllocTakesBlock(h.pool, limit, 0);
    var p, pool := Alloc(h.pool, 0).0.value, Alloc(h.pool, 0).1.value;
    assert IsFree(h.pool, p);
    PageTaken(h, limit, p, pool, NewRow(n));
    NewRowKeeps(n);
    var g := Heap(h.rows[p := NewRow(n)], h.bins, pool);
    OpenRow(h, limit, p, pool, n);
    MarkFreeKeeps(g, limit, Addr(p, 1 + n));
  }

  lemma PageTaken(h: Heap, limit: nat, p: nat, pool: Pool, r: Row)
    requires HInv(h, limit) && Inv(pool, limit) && p < limit && IsFree(h.pool, p) && p !in h.rows
    requires forall x: nat :: IsFree(pool, x) <==> IsFree(h.pool, x) && x != p
    ensures PagesApart(h.rows[p := r], pool, limit)
  {
    var rows := h.rows[p := r];
    forall q: nat ensures RunReserved(rows, pool, q) {
      assert RunReserved(h.rows, h.pool, q);
      var x: nat :| Base(x, TOTAL_LEVEL) == Base(q, TOTAL_LEVEL) && !IsFree(h.pool, x) && x !in h.rows;
      assert !IsFree(pool, x) && x !in rows;
    }
  }

  lemma OpenRow(h: Heap, limit: nat, p: nat, pool: Pool, n: nat)
    requires HInv(h, limit) && p !in h.rows && 1 <= n <= MAX_REQUEST && RowInv(NewRow(n))
    requires |pool| == TOTAL_LEVEL && PagesApart(h.rows[p := NewRow(n)], pool, limit)
    ensures var g, b := Heap(h.rows[p := NewRow(n)], h.bins, pool), Addr(p, 1 + n);
            && HInv(g, limit) && LiveAt(g.rows, b) && At(g.rows, b).size <= ARR_LEN
            && Next(g.rows[p], b.off) in g.rows[p] && g.rows[p][Next(g.rows[p], b.off)].used
            && At(g.rows, b).prev == 0 && g.rows[p][0].used
            && Live(g.rows) - {b} == Live(h.rows)[Addr(p, 0) := n]
  {
    hide PagesApart, RowInv, Binned;
    NewRowLive(h.rows, p, n);
    NewRowBinned(h.rows, h.bins, p, n);
  }

  lemma NewRowLive(rows: map<nat, Row>, p: nat, n: nat)
    requires p !in rows && 1 <= n <= MAX_REQUEST
    ensures Live(rows[p := NewRow(n)]) - {Addr(p, 1 + n)} == Live(rows)[Addr(p, 0) := n]
  {
  }

  lemma NewRowBinned(rows: map<nat, Row>, bins: seq<seq<Addr>>, p: nat, n: nat)
    requires Binned(rows, bins) && p !in rows && 1 <= n <= MAX_REQUEST
    ensures Binned(rows[p := NewRow(n)], bins)
  {
    var now := rows[p := NewRow(n)];
    forall a ensures FreeAt(now, a) <==> FreeAt(rows, a) {}
    forall a ensures FreeAt(rows, a) ==> FreeAt(now, a) && At(now, a) == At(rows, a) {}
  }

  /** Malloc keeps the invariant and adds exactly one live block, of the requested size or one
      unit more; on failure nothing changes.  Page ownership only moves, it is never lost. */
  lemma MallocMeans(h: Heap, limit: nat, n: nat)
    requires HInv(h, limit) && 1 <= n <= MAX_REQUEST
    ensures var (a, g) := MallocBlk(h, limit, n);
            && HInv(g, limit)
            && (a == None ==> g == h)
            && (a.Some? ==>
                  && !LiveAt(h.rows, a.value) && LiveAt(g.rows, a.value)
                  && n <= At(g.rows, a.value).size <= n + 1
                  && Live(g.rows) == Live(h.rows)[a.value := At(g.rows, a.value).size])
            && forall x: nat :: (IsFree(g.pool, x) || x in g.rows) <==> (IsFree(h.pool, x) || x in h.rows)
  {
    hide Binned, PagesApart, Cut, Open, RowsInv;
    var id := ChosenBin(h.bins, n);
    if id < ARR_LEN {
      var a := h.bins[id][0];
      TakeKeeps(h, limit, id);
      if id > n {
        CutKeeps(MarkUsed(h, a), limit, a, n);
        var g := Cut(MarkUsed(h, a), a, n);
        assert Live(h.rows)[a := id + 1][a := n] == Live(h.rows)[a := n];
        LiveSize(g.rows, a, n);
      }
    } else if Alloc(h.pool, 0).0.Some? {
      OpenKeeps(h, limit, n);
      var p := Alloc(h.pool, 0).0.value;
      LiveSize(Open(h, p, Alloc(h.pool, 0).1.value, n).rows, Addr(p, 0), n);
    }
  }

  lemma LiveSize(rows: map<nat, Row>, a: Addr, n: nat)
    requires a in Live(rows) && Live(rows)[a] == n
    ensures LiveAt(rows, a) && At(rows, a).size == n
  {
  }

  /** Malloc fails exactly when no free block is large enough and no page is free. */
  lemma MallocFailsIff(h: Heap, limit: nat, n: nat)
    requires HInv(h, limit) && 1 <= n <= MAX_REQUEST
    ensures MallocBlk(h, limit, n).0 == None <==>
      (forall b :: FreeAt(h.rows, b) ==> At(h.rows, b).size < n) && forall x: nat :: !IsFree(h.pool, x)
  {
    var id := ChosenBin(h.bins, n);
    AllocComplete(h.pool, limit, 0);
    if id < ARR_LEN {
      assert h.bins[id][0] in h.bins[id];
    } else {
      forall b | FreeAt(h.rows, b) ensures At(h.rows, b).size < n {
        NoneLarger(h, n, b);
      }
      if Alloc(h.pool, 0).0.Some? {
        AllocTakesBlock(h.pool, limit, 0);
        assert IsFree(h.pool, Alloc(h.pool, 0).0.value);
      }
      assert forall x: nat :: IsFree(h.pool, x) ==> RunFree(h.pool, x, 0);
    }
  }

  lemma NoneLarger(h: Heap, n: nat, b: Addr)
    requires Binned(h.rows, h.bins) && 1 <= n <= MAX_REQUEST && FreeAt(h.rows, b)
    requires ChosenBin(h.bins, n) == ARR_LEN
    ensures At(h.rows, b).size < n
  {
    var i := At(h.rows, b).size - 1;
    assert b in h.bins[i];
  }

  /** A fresh page is opened only when no free block is large enough; otherwise the block
      served comes from the smallest adequate size. */
  lemma SmallestAdequate(h: Heap, limit: nat, n: nat, b: Addr)
    requires HInv(h, limit) && 1 <= n <= MAX_REQUEST
    requires FreeAt(h.rows, b) && At(h.rows, b).size >= n
    ensures var (a, g) := MallocBlk(h, limit, n);
            && a.Some? && FreeAt(h.rows, a.value)
            && n <= At(h.rows, a.value).size <= At(h.rows, b).size
            && g.pool == h.pool && g.rows.Keys == h.rows.Keys
  {
    var id, i := ChosenBin(h.bins, n), At(h.rows, b).size - 1;
    assert b in h.bins[i];
    assert id <= i;
    TakeKeeps(h, limit, id);
    if id > n {
      CutKeeps(MarkUsed(h, h.bins[id][0]), limit, h.bins[id][0], n);
    }
  }

  /** It is the first block of its bin, handed out whole if it has at most one unit more than the
      request, and otherwise cut to the request. */
  lemma FirstOfBin(h: Heap, limit: nat, n: nat, b: Addr)
    requires HInv(h, limit) && 1 <= n <= MAX_REQUEST
    requires FreeAt(h.rows, b) && At(h.rows, b).size >= n
    ensures |h.bins| == ARR_LEN
    ensures var (a, g) := MallocBlk(h, limit, n);
            && a.Some? && FreeAt(h.rows, a.value) && LiveAt(g.rows, a.value)
            && var size := At(h.rows, a.value).size;
               && 1 <= size <= ARR_LEN && h.bins[size - 1] != [] && a.value == h.bins[size - 1][0]
               && At(g.rows, a.value).size == if size <= n + 1 then size else n
  {
    hide HInv, Binned, Cut, Live;
    BinOccupied(h, limit, n, b);
    var id := ChosenBin(h.bins, n);
    var a := h.bins[id][0];
    TakeKeeps(h, limit, id);
    if id > n {
      CutKeeps(MarkUsed(h, a), limit, a, n);
      LiveSize(Cut(MarkUsed(h, a), a, n).rows, a, n);
    }
  }

  lemma BinOccupied(h: Heap, limit: nat, n: nat, b: Addr)
    requires HInv(h, limit) && 1 <= n <= MAX_REQUEST && FreeAt(h.rows, b) && At(h.rows, b).size >= n
    ensures |h.bins| == ARR_LEN && ChosenBin(h.bins, n) < ARR_LEN && h.bins[ChosenBin(h.bins, n)] != []
  {
    if ChosenBin(h.bins, n) == ARR_LEN { NoneLarger(h, n, b); }
  }

  /** Otherwise the block starts a page that was free; it has the requested size, and the rest of
      the page is one free block. */
  lemma FreshPageServes(h: Heap, limit: nat, n: nat)
    requires HInv(h, limit) && 1 <= n <= MAX_REQUEST
    requires forall b :: FreeAt(h.rows, b) ==> At(h.rows, b).size < n
    requires exists x: nat :: IsFree(h.pool, x)
    ensures var (a, g) := MallocBlk(h, limit, n);
            && a.Some? && a.value.off == 0 && a.value.page !in h.rows && IsFree(h.pool, a.value.page)
            && LiveAt(g.rows, a.value) && At(g.rows, a.value).size == n
            && FreeAt(g.rows, Addr(a.value.page, 1 + n)) && At(g.rows, Addr(a.value.page, 1 + n)).size == 509 - n
            && forall p :: p in g.rows <==> p in h.rows || p == a.value.page
  {
    hide HInv, Alloc, IsFree;
    MallocFailsIff(h, limit, n);
    BinServes(h, limit, n);
    PageIsFresh(h, limit);
  }

  lemma BinServes(h: Heap, limit: nat, n: nat)
    requires HInv(h, limit) && 1 <= n <= MAX_REQUEST
    ensures |h.bins| == ARR_LEN && |h.pool| == TOTAL_LEVEL
    ensures var id := ChosenBin(h.bins, n);
            id < ARR_LEN ==> h.bins[id] != [] && FreeAt(h.rows, h.bins[id][0]) && At(h.rows, h.bins[id][0]).size >= n
  {
    var id := ChosenBin(h.bins, n);
    if id < ARR_LEN {
      assert h.bins[id][0] in h.bins[id];
    }
  }

  lemma PageIsFresh(h: Heap, limit: nat)
    requires HInv(h, limit) && Alloc(h.pool, 0).0.Some?
    ensures var p := Alloc(h.pool, 0).0.value; p !in h.rows && IsFree(h.pool, p)
  {
    AllocTakesBlock(h.pool, limit, 0);
    var p := Alloc(h.pool, 0).0.value;
    assert Base(p, 0) == p;
  }

  // ----- the heap is determined by the live blocks -----

  /** Two heaps with the same live blocks hold the same pages with the same headers. */
  lemma HeapCanonical(h: Heap, g: Heap, limit: nat)
    requires HInv(h, limit) && HInv(g, limit) && Live(h.rows) == Live(g.rows)
    ensures h.rows == g.rows
  {
    forall p ensures p in h.rows <==> p in g.rows {
      if p in h.rows {
        PageHasLive(h, g, p);
      }
      if p in g.rows {
        PageHasLive(g, h, p);
      }
    }
    forall p | p in h.rows ensures h.rows[p] == g.rows[p] {
      UsedAgree(h, g, p);
      UsedAgree(g, h, p);
      RowCanonical(h.rows[p], g.rows[p]);
    }
  }

  lemma PageHasLive(h: Heap, g: Heap, p: nat)
    requires RowsInv(h.rows) && Live(h.rows) == Live(g.rows) && p in h.rows
    ensures p in g.rows
  {
    var o := SomeBlockUsed(h.rows[p]);
    assert Addr(p, o) in Live(h.rows);
  }

  lemma UsedAgree(h: Heap, g: Heap, p: nat)
    requires RowsInv(h.rows) && RowsInv(g.rows) && Live(h.rows) == Live(g.rows) && p in h.rows && p in g.rows
    ensures forall o :: o in h.rows[p] && h.rows[p][o].used ==>
      o in g.rows[p] && g.rows[p][o].used && g.rows[p][o].size == h.rows[p][o].size
  {
    var r, s := h.rows[p], g.rows[p];
    forall o | o in r && r[o].used ensures o in s && s[o].used && s[o].size == r[o].size {
      assert Placed(r, o) && Placed(s, LAST);
      if o != LAST {
        assert Addr(p, o) in Live(h.rows);
        LiveSize(g.rows, Addr(p, o), r[o].size);
      }
    }
  }
}
