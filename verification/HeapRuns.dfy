/** Whole runs of the block allocator over the page manager. */
module HeapRuns {
  import opened Pages
  import opened Buddy
  import opened Donate
  import opened Rows
  import opened Heap

  /** Bytes per unit: the size of a block header and the granularity of payloads. */
  const BLOCK_SIZE: nat := 8

  /** Largest request in bytes for which a fresh page leaves a usable remainder. */
  const MAX_BYTES: nat := MAX_REQUEST * BLOCK_SIZE

  /** Payload units for a request in bytes: rounded up, and never empty. */
  function UnitsFor(bytes: nat): (n: nat)
    ensures n >= 1 && n * BLOCK_SIZE >= bytes
    ensures n > 1 ==> (n - 1) * BLOCK_SIZE < bytes
  {
    if bytes < BLOCK_SIZE then 1 else AlignTo(bytes, BLOCK_SIZE) / BLOCK_SIZE
  }

  lemma UnitsBounded(bytes: nat)
    ensures UnitsFor(bytes) <= MAX_REQUEST <==> bytes <= 4064
    ensures MAX_BYTES == 4064
  {
  }

  // ----- live payloads -----

  /** Unit u of memory belongs to the payload of the block at a. */
  predicate InPayload(rows: map<nat, Row>, a: Addr, u: int)
    requires HeaderAt(rows, a)
  {
    UNITS * a.page + a.off < u <= UNITS * a.page + a.off + At(rows, a).size
  }

  /** Payloads of different blocks are disjoint, and no payload contains a header. */
  lemma PayloadsApart(h: Heap, limit: nat, a: Addr, b: Addr, u: int)
    requires HInv(h, limit) && HeaderAt(h.rows, a) && HeaderAt(h.rows, b)
    requires InPayload(h.rows, a, u)
    ensures u != UNITS * b.page + b.off
    ensures a != b ==> !InPayload(h.rows, b, u)
    ensures UNITS * a.page < u < UNITS * (a.page + 1) - 1
  {
    assert Placed(h.rows[a.page], a.off) && Placed(h.rows[b.page], b.off);
    if a.page == b.page {
      assert Apart(h.rows[a.page], a.off, b.off) && Apart(h.rows[a.page], b.off, a.off);
    }
  }

  // ----- runs -----

  datatype Op = Request(bytes: nat) | Return(block: Addr)

  ghost predicate Legal(op: Op) {
    op.Request? ==> op.bytes <= MAX_BYTES
  }

  /** One call; returning something that is not live is no call of a correct program. */
  ghost function Step(h: Heap, limit: nat, op: Op): Heap
    requires HInv(h, limit) && Legal(op)
  {
    match op
    case Request(bytes) => UnitsBounded(bytes); MallocBlk(h, limit, UnitsFor(bytes)).1
    case Return(a) => if LiveAt(h.rows, a) then FreeBlk(h, limit, a) else h
  }

  ghost predicate SamePages(h: Heap, g: Heap)
    requires |h.pool| == |g.pool| == TOTAL_LEVEL
  {
    forall x: nat :: (IsFree(g.pool, x) || x in g.rows) <==> (IsFree(h.pool, x) || x in h.rows)
  }

  lemma StepKeeps(h: Heap, limit: nat, op: Op)
    requires HInv(h, limit) && Legal(op)
    ensures HInv(Step(h, limit, op), limit) && SamePages(h, Step(h, limit, op))
  {
    match op
    case Request(bytes) =>
      UnitsBounded(bytes);
      MallocMeans(h, limit, UnitsFor(bytes));
    case Return(a) =>
      if LiveAt(h.rows, a) {
        FreeMeans(h, limit, a);
      }
  }

  /** The heap after a sequence of calls. */
  ghost function Run(h: Heap, limit: nat, ops: seq<Op>): (g: Heap)
    requires HInv(h, limit) && forall op :: op in ops ==> Legal(op)
    ensures HInv(g, limit)
    decreases ops
  {
    if ops == [] then h
    else
      assert ops[0] in ops;
      StepKeeps(h, limit, ops[0]);
      Run(Step(h, limit, ops[0]), limit, ops[1..])
  }

  /** Whatever is called, every page stays accounted for: free in the page manager or held. */
  lemma {:induction false} RunConserves(h: Heap, limit: nat, ops: seq<Op>)
    requires HInv(h, limit) && forall op :: op in ops ==> Legal(op)
    ensures SamePages(h, Run(h, limit, ops))
    decreases ops
  {
    if ops != [] {
      assert ops[0] in ops;
      StepKeeps(h, limit, ops[0]);
      RunConserves(Step(h, limit, ops[0]), limit, ops[1..]);
    }
  }

  /** The same free structure: pages, buddy blocks and bins, list order aside. */
  ghost predicate SameStructure(h: Heap, g: Heap)
    requires |h.pool| == |g.pool| == TOTAL_LEVEL && |h.bins| == |g.bins| == ARR_LEN
  {
    && g.rows == h.rows
    && (forall x: nat :: IsFree(g.pool, x) <==> IsFree(h.pool, x))
    && (forall k, p :: 0 <= k < TOTAL_LEVEL ==> (p in g.pool[k] <==> p in h.pool[k]))
    && (forall id, a :: 0 <= id < ARR_LEN ==> (a in g.bins[id] <==> a in h.bins[id]))
  }

  lemma StructureFromLive(h: Heap, g: Heap, limit: nat)
    requires HInv(h, limit) && HInv(g, limit) && SamePages(h, g) && Live(h.rows) == Live(g.rows)
    ensures SameStructure(h, g)
  {
    HeapCanonical(h, g, limit);
    forall x: nat ensures IsFree(g.pool, x) <==> IsFree(h.pool, x) {
      assert x in h.rows ==> !IsFree(h.pool, x) && !IsFree(g.pool, x);
    }
    forall k, p | 0 <= k < TOTAL_LEVEL ensures p in g.pool[k] <==> p in h.pool[k] {
      Canonical(h.pool, g.pool, limit, k, p);
    }
    forall id, a | 0 <= id < ARR_LEN ensures a in g.bins[id] <==> a in h.bins[id] {
      assert a in g.bins[id] <==> FreeAt(g.rows, a) && At(g.rows, a).size == id + 1;
      assert a in h.bins[id] <==> FreeAt(h.rows, a) && At(h.rows, a).size == id + 1;
    }
  }

  /** Two histories that end with the same live blocks end in the same heap: headers, bins,
      held pages, free pages and buddy blocks, whatever was allocated in between. */
  lemma HistoryForgotten(h: Heap, limit: nat, ops: seq<Op>, others: seq<Op>)
    requires HInv(h, limit)
    requires (forall op :: op in ops ==> Legal(op)) && forall op :: op in others ==> Legal(op)
    requires Live(Run(h, limit, ops).rows) == Live(Run(h, limit, others).rows)
    ensures SameStructure(Run(h, limit, others), Run(h, limit, ops))
  {
    RunConserves(h, limit, ops);
    RunConserves(h, limit, others);
    StructureFromLive(Run(h, limit, others), Run(h, limit, ops), limit);
  }

  /** No page leaks: a run after which nothing is live has returned every page, and the page
      manager has exactly the free blocks and the spare memory it started with. */
  lemma NoLeak(h: Heap, limit: nat, ops: seq<Op>)
    requires HInv(h, limit) && h.rows == map[]
    requires forall op :: op in ops ==> Legal(op)
    requires forall a :: !LiveAt(Run(h, limit, ops).rows, a)
    ensures var g := Run(h, limit, ops);
            && g.rows == map[] && SameStructure(h, g)
            && PageSet(g.pool, limit) == PageSet(h.pool, limit)
  {
    var g := Run(h, limit, ops);
    RunConserves(h, limit, ops);
    assert Live(h.rows) == Live(g.rows);
    StructureFromLive(h, g, limit);
  }

  lemma HeapShape(h: Heap, limit: nat)
    requires HInv(h, limit)
    ensures |h.bins| == ARR_LEN && |h.pool| == TOTAL_LEVEL
  {
  }

  /** Returning a block right after it was handed out restores the whole structure. */
  lemma FreeUndoesMalloc(h: Heap, limit: nat, n: nat)
    requires HInv(h, limit) && 1 <= n <= MAX_REQUEST && MallocBlk(h, limit, n).0.Some?
    ensures var (a, g) := MallocBlk(h, limit, n);
            && HInv(g, limit) && LiveAt(g.rows, a.value)
            && HInv(FreeBlk(g, limit, a.value), limit)
            && SameStructure(h, FreeBlk(g, limit, a.value))
  {
    hide HInv, MallocBlk, FreeBlk, SameStructure;
    var (a, g) := MallocBlk(h, limit, n);
    MallocMeans(h, limit, n);
    HeapShape(h, limit);
    FreeMeans(g, limit, a.value);
    var f := FreeBlk(g, limit, a.value);
    HeapShape(f, limit);
    assert a.value !in Live(h.rows);
    assert Live(f.rows) == Live(h.rows);
    StructureFromLive(h, f, limit);
  }
}
