/** The block allocator as the program runs it: headers and bin lists rewritten in memory,
    pages taken from and returned to the page manager that shares the memory.

    The ghost field heap is the model's heap; Valid says that it meets the heap invariant and
    that the words, the bins' rings and the page manager stand for it.  Each method is one
    function of the source, and its contract names the model's step that it carries out and
    the blocks that it leaves alone. */
module BlockAllocator {
  import opened Pages
  import opened Sequences
  import opened Buddy
  import opened Donate
  import opened Lists
  import opened PageLists
  import opened PageManager
  import opened Rows
  import opened Heap
  import opened HeapRuns
  import opened HeapWords

  class Allocator {
    const man: PageMan
    const mem: Memory
    const heads: nat
    ghost var heap: Heap

    ghost predicate Apart()
      reads this, man, mem
    {
      && mem == man.mem && mem.Valid()
      && UNITS * man.limit <= man.heads && man.heads + TOTAL_LEVEL <= heads && heads + ARR_LEN <= mem.first.Length
    }

    ghost predicate Valid()
      reads this, man, man.bytes, mem, mem.first, mem.second
    {
      && mem == man.mem && man.LaidOut() && heap.pool == man.pool
      && |heap.bins| == ARR_LEN && |heap.pool| == TOTAL_LEVEL
      && Stands(mem.Contents(), Where(), heap)
    }

    ghost function Where(): Place
      reads man, man.bytes
    {
      Place(man.limit, man.heads, heads, man.bytes[..], man.spare)
    }

    /** Empty bins over a page manager; no page held. */
    constructor Empty(man: PageMan, heads: nat)
      requires man.Valid() && man.heads + TOTAL_LEVEL <= heads && heads + ARR_LEN <= man.mem.first.Length
      modifies man.mem.first, man.mem.second
      ensures Valid() && fresh(this)
      ensures this.man == man && this.heads == heads && heap.rows == map[]
      ensures forall u :: !(heads <= u < heads + ARR_LEN) ==> SameAt(old(man.mem.Contents()), man.mem.Contents(), u)
    {
      this.man, this.mem, this.heads := man, man.mem, heads;
      heap := Heap(map[], seq(ARR_LEN, _ => []), man.pool);
      new;
      ghost var w := mem.Contents();
      for id := 0 to ARR_LEN
        modifies mem.first, mem.second
        invariant forall h :: heads <= h < heads + id ==> Ring(mem.Contents(), h, [])
        invariant |mem.Contents().first| == |mem.Contents().second|
        invariant forall u :: !(heads <= u < heads + ARR_LEN) ==> SameAt(w, mem.Contents(), u)
      {
        ghost var v := mem.Contents();
        mem.ListEmpty(heads + id);
        forall u | !(heads <= u < heads + ARR_LEN) ensures SameAt(w, mem.Contents(), u) {
          assert SameAt(w, v, u);
        }
        forall h | heads <= h < heads + id ensures Ring(mem.Contents(), h, []) {
          RingFrame(v, mem.Contents(), h, []);
        }
        assert Joined(mem.Contents(), heads + id, [], -1);
      }
      EmptyHeap(man.pool, man.limit);
      ManagerUntouched(w, mem.Contents());
      forall id | 0 <= id < ARR_LEN ensures Image(Payload, heap.bins[id]) == [] {}
    }

    /** Bin heads lie above everything the page manager owns. */
    lemma ManagerUntouched(w: Words, v: Words)
      requires Apart() && |v.first| == |v.second| && man.LaidOut()
      requires Represents(w, man.bytes[..], man.spare, man.heads, man.pool, man.limit)
      requires forall u :: !(heads <= u < heads + ARR_LEN) ==> SameAt(w, v, u)
      ensures Represents(v, man.bytes[..], man.spare, man.heads, man.pool, man.limit)
    {
      forall u | Owned(man.heads, man.pool, u) ensures SameAt(w, v, u) {
        if !(man.heads <= u < man.heads + TOTAL_LEVEL) {
          FreeBelowLimit(man.pool, man.limit, u / UNITS);
        }
      }
      ManagerKept(w, v, man.bytes[..], man.spare, man.heads, man.pool, man.limit);
    }

    /** Creates an allocator whose record takes one page of the manager; null where the
        source's assertion on that page fails. */
    static method Create(man: PageMan, heads: nat) returns (al: Allocator?)
      requires man.Valid() && man.heads + TOTAL_LEVEL <= heads && heads + ARR_LEN <= man.mem.first.Length
      modifies man, man.bytes, man.mem.first, man.mem.second
      ensures al == null <==> forall x: nat :: !old(IsFree(man.pool, x))
      ensures al != null ==>
        && fresh(al) && al.Valid() && al.man == man && al.heads == heads && al.heap.rows == map[]
        && (old(Alloc(man.pool, 0)).0, Some(man.pool)) == old(Alloc(man.pool, 0))
    {
      RecordPages();
      AllocComplete(man.pool, man.limit, 0);
      OnePage(man.pool);
      var page := man.AllocPages(GetPagePow(RECORD_SIZE));
      if page == None {
        return null;
      }
      al := new Allocator.Empty(man, heads);
    }

    /** The block behind the payload of the block at u. */
    function NextBlock(u: int): int
      reads mem, mem.second
      requires 0 <= u < mem.second.Length
    {
      u + 1 + PayloadUnits(mem.second[u])
    }

    predicate IsFreeBlock(u: int)
      reads mem, mem.second
      requires 0 <= u < mem.second.Length
    {
      mem.second[u] % 2 == 0
    }

    method MarkUsedAt(u: int, ghost a: Addr)
      requires Valid() && FreeAt(heap.rows, a) && u == Unit(a)
      modifies `heap, mem.first, mem.second
      ensures Valid() && heap == MarkUsed(old(heap), a)
      ensures OthersKept(old(mem.Contents()), mem.Contents(), man.limit, old(heap), a)
    {
      hide Stands, OthersKept;
      ghost var w := mem.Contents();
      MarkUsedStands(w, Where(), heap, a);
      mem.ListRemove(u + 1);
      mem.second[u] := mem.second[u] - mem.second[u] % 2 + 1;
      assert mem.Contents() == UseWords(w, u);
      heap := MarkUsed(heap, a);
    }

    /** list_addFirst to the bin of the block's size, then the flag is cleared. */
    method WriteFree(u: int)
      requires mem.Valid() && 0 <= u && u + 1 < mem.first.Length
      requires var head := heads + mem.second[u] / BLOCK_SIZE - 1;
               && head != u + 1 && InMemory(mem.Contents(), head) && InMemory(mem.Contents(), mem.second[head])
      modifies mem.first, mem.second
      ensures mem.Contents() == UnuseWords(old(mem.Contents()), heads + old(mem.second[u]) / BLOCK_SIZE - 1, u)
    {
      mem.ListAddFirst(heads + mem.second[u] / BLOCK_SIZE - 1, u + 1);
      mem.second[u] := mem.second[u] - mem.second[u] % 2;
    }

    method MarkFreeAt(u: int, ghost a: Addr)
      requires Valid() && LiveAt(heap.rows, a) && u == Unit(a)
      requires At(heap.rows, a).size <= ARR_LEN && HInv(MarkFree(heap, a), man.limit)
      modifies `heap, mem.first, mem.second
      ensures Valid() && heap == MarkFree(old(heap), a)
      ensures OthersKept(old(mem.Contents()), mem.Contents(), man.limit, old(heap), a)
    {
      hide Stands, OthersKept, HInv;
      ghost var w := mem.Contents();
      MarkFreeStands(w, Where(), heap, a);
      SizeOf(w, Where(), heap, a);
      WriteFree(u);
      assert mem.Contents() == UnuseWords(w, heads + At(heap.rows, a).size - 1, u);
      heap := MarkFree(heap, a);
    }

    /** Joins the used block at u with the used block after it. */
    method MergeAt(u: int, ghost a: Addr)
      requires Valid() && LiveAt(heap.rows, a) && u == Unit(a)
      requires var n := Next(heap.rows[a.page], a.off); LiveAt(heap.rows, Addr(a.page, n))
      modifies `heap, mem.first, mem.second
      ensures Valid()
      ensures var r := old(heap.rows)[a.page];
              && Next(r, Next(r, a.off)) in r && heap == WithRow(old(heap), a.page, Merge(r, a.off))
      ensures OthersKept(old(mem.Contents()), mem.Contents(), man.limit, old(heap), a)
    {
      hide Stands, OthersKept, PayloadUnits;
      ghost var w, r := mem.Contents(), heap.rows[a.page];
      MergeStands(w, Where(), heap, a);
      SizeOf(w, Where(), heap, a);
      SizeOf(w, Where(), heap, Addr(a.page, Next(r, a.off)));
      var second := NextBlock(u);
      var third := NextBlock(second);
      mem.second[u] := mem.second[u] + mem.second[second] + BLOCK_SIZE - 1;
      mem.first[third] := u;
      assert mem.Contents() == MergeWords(w, u, second, third);
      heap := WithRow(heap, a.page, Merge(r, a.off));
    }

    /** Cuts the used block at u after n units. */
    method SplitAt(u: int, n: nat, ghost a: Addr)
      requires Valid() && LiveAt(heap.rows, a) && u == Unit(a) && 1 <= n && n + 2 <= At(heap.rows, a).size
      modifies `heap, mem.first, mem.second
      ensures Valid()
      ensures var r := old(heap.rows)[a.page];
              && Next(r, a.off) in r && heap == WithRow(old(heap), a.page, Split(r, a.off, n))
      ensures OthersKept(old(mem.Contents()), mem.Contents(), man.limit, old(heap), a)
    {
      hide Stands, OthersKept, PayloadUnits;
      SizeWordParts(n, 1);
      ghost var w, r := mem.Contents(), heap.rows[a.page];
      SplitStands(w, Where(), heap, a, n);
      SizeOf(w, Where(), heap, a);
      var third := NextBlock(u);
      mem.second[u] := BLOCK_SIZE * n + 1;
      var second := NextBlock(u);
      mem.first[second] := u;
      mem.first[third] := second;
      mem.second[second] := BLOCK_SIZE * (third - (second + 1)) + 1;
      assert mem.Contents() == SplitWords(w, u, second, third, BLOCK_SIZE * n + 1, BLOCK_SIZE * (r[a.off].size - n - 1) + 1);
      heap := WithRow(heap, a.page, Split(r, a.off, n));
    }
  
    /** Hands the page of a block that fills it back to the page manager. */
    method ReturnPage(page: nat, ghost a: Addr)
      requires Valid() && LiveAt(heap.rows, a) && FillsPage(heap, a) && page == a.page
      modifies `heap, man, man.bytes, mem.first, mem.second
      ensures Valid() && heap == FreeBlk(old(heap), man.limit, a)
      ensures OthersKept(old(mem.Contents()), mem.Contents(), man.limit, old(heap), a)
    {
      hide Stands, OthersKept, HInv, SameOutside, Represents;
      ghost var w, at, h := mem.Contents(), Where(), heap;
      StandsHas(w, at, h);
      PageFreeable(w, at, h, a);
      assert man.Valid();
      var ok := man.FreePages(page, 0);
      DropStands(w, mem.Contents(), at, Where(), h, a);
      heap := FreeBlk(h, man.limit, a);
    }

    /** Takes the free block at f out of its bin and merges at block o, one of the two. */
    method JoinHere(f: int, o: int, ghost fa: Addr, ghost oa: Addr) returns (ghost v: Words)
      requires Valid() && FreeAt(heap.rows, fa) && f == Unit(fa) && o == Unit(oa) && oa.page == fa.page
      requires HeaderAt(heap.rows, oa)
      requires var r := heap.rows[fa.page];
               && Next(r, oa.off) in r && (fa == oa || fa.off == Next(r, oa.off))
               && (fa == oa ==> LiveAt(heap.rows, Addr(fa.page, Next(r, oa.off))))
               && (fa != oa ==> LiveAt(heap.rows, oa))
      modifies `heap, mem.first, mem.second
      ensures Valid() && v == mem.Contents()
      ensures 1 <= At(old(heap.rows), fa).size <= ARR_LEN
      ensures var r := old(heap.rows)[fa.page];
              Next(r, Next(r, oa.off)) in r && heap == Join(old(heap), fa, oa.off)
      ensures OthersKept(old(mem.Contents()), v, man.limit, old(heap), oa)
    {
      hide Stands, OthersKept, HInv, Live;
      ghost var w, h := mem.Contents(), heap;
      StandsHas(w, Where(), h);
      FreeBlockBounds(h, man.limit, fa);
      JoinKeeps(h, man.limit, fa, oa.off);
      MarkUsedAt(f, fa);
      ghost var u := mem.Contents();
      MergeAt(o, oa);
      v := mem.Contents();
      JoinOthers(w, u, v, man.limit, h, fa, oa);
    }

    /** Returns the block whose payload is at addr. */
    method Free(addr: int, ghost a: Addr)
      requires Valid() && (addr != NULL ==> LiveAt(heap.rows, a) && addr == Payload(a))
      modifies `heap, man, man.bytes, mem.first, mem.second
      ensures Valid()
      ensures addr == NULL ==> heap == old(heap) && mem.Contents() == old(mem.Contents())
      ensures addr != NULL ==>
        heap == FreeBlk(old(heap), man.limit, a)
        && OthersKept(old(mem.Contents()), mem.Contents(), man.limit, old(heap), a)
      decreases if addr == NULL then {} else heap.rows[a.page].Keys
    {
      hide Stands, OthersKept, HInv, Live, Join, SamePages, PayloadUnits;
      if addr == NULL {
        return;
      }
      ghost var w, h := mem.Contents(), heap;
      var block := addr - 1;
      StandsHas(w, Where(), h);
      FreeReads(w, Where(), heap, a);
      SizeOf(w, Where(), heap, a);
      var prev := mem.first[block];
      var next := NextBlock(block);
      if prev == NULL && mem.second[next] == 1 {
        ReturnPage(block / UNITS, a);
        return;
      }
      assert !FillsPage(heap, a);
      if prev != NULL && IsFreeBlock(prev) {
        PrevJoins(heap, man.limit, a);
        ghost var p := Addr(a.page, heap.rows[a.page][a.off].prev);
        ghost var v := JoinHere(prev, prev, p, p);
        OthersKeptAnyway(w, v, man.limit, h, p, a);
        Free(prev + 1, p);
        OthersKeptTwice(w, v, mem.Contents(), man.limit, h, a, Join(h, p, p.off), p);
        return;
      }
      if IsFreeBlock(next) {
        NextJoins(heap, man.limit, a);
        ghost var n := Addr(a.page, Next(heap.rows[a.page], a.off));
        ghost var v := JoinHere(next, block, n, a);
        Free(block + 1, a);
        OthersKeptTwice(w, v, mem.Contents(), man.limit, h, a, Join(h, n, a.off), a);
        return;
      }
      LoneFrees(heap, man.limit, a);
      MarkFreeAt(block, a);
    }
  
    /** Takes the first block of a bin. */
    method TakeFirst(id: nat) returns (block: int)
      requires Valid() && id < ARR_LEN && heap.bins[id] != []
      modifies `heap, mem.first, mem.second
      ensures Valid() && block == Unit(old(heap).bins[id][0])
      ensures FreeAt(old(heap).rows, old(heap).bins[id][0]) && At(old(heap).rows, old(heap).bins[id][0]).size == id + 1
      ensures heap == MarkUsed(old(heap), old(heap).bins[id][0])
      ensures OthersKept(old(mem.Contents()), mem.Contents(), man.limit, old(heap), old(heap).bins[id][0])
    {
      hide Stands, OthersKept, HInv;
      StandsHas(mem.Contents(), Where(), heap);
      BinReads(mem.Contents(), Where(), heap, id);
      TakeKeeps(heap, man.limit, id);
      block := mem.second[heads + id] - 1;
      MarkUsedAt(block, heap.bins[id][0]);
    }

    /** Takes the first block of a bin and cuts it after n units. */
    method TakeAndCut(id: nat, n: nat) returns (block: int)
      requires Valid() && 1 <= n && n + 1 <= id < ARR_LEN && heap.bins[id] != []
      modifies `heap, mem.first, mem.second
      ensures Valid() && block == Unit(old(heap).bins[id][0])
      ensures var a := old(heap).bins[id][0];
              && FreeAt(old(heap).rows, a) && At(old(heap).rows, a).size == id + 1
              && var g := MarkUsed(old(heap), a);
                 && LiveAt(g.rows, a) && At(g.rows, a).size == id + 1
                 && Next(g.rows[a.page], a.off) in g.rows[a.page]
                 && heap == Cut(g, a, n)
      ensures LiveKept(old(mem.Contents()), mem.Contents(), man.limit, old(heap))
    {
      hide Stands, OthersKept, LiveKept, HInv, Live, PayloadUnits;
      ghost var w, h, a := mem.Contents(), heap, heap.bins[id][0];
      StandsHas(w, Where(), h);
      TakeKeeps(h, man.limit, id);
      CutKeeps(MarkUsed(h, a), man.limit, a, n);
      CutRow(MarkUsed(h, a), man.limit, a, n);
      block := TakeFirst(id);
      ghost var v := mem.Contents();
      SplitAt(block, n, a);
      ghost var x := mem.Contents();
      SizeOf(x, Where(), heap, a);
      var second := NextBlock(block);
      MarkFreeAt(second, Addr(a.page, a.off + 1 + n));
      CutOthers(w, v, x, mem.Contents(), man.limit, h, a, n);
    }
  
    /** Asks the page manager for a page and lays it out; NULL if there is none. */
    method OpenPage(n: nat) returns (block: int)
      requires Valid() && 1 <= n <= MAX_REQUEST
      modifies `heap, man, man.bytes, mem.first, mem.second
      ensures Valid() && LiveKept(old(mem.Contents()), mem.Contents(), man.limit, old(heap))
      ensures var (page, pool) := Alloc(old(heap).pool, 0);
              if page == None || pool == None then block == NULL && heap == old(heap)
              else block == UNITS * page.value && heap == Open(old(heap), page.value, pool.value, n)
    {
      hide Stands, LiveKept, OthersKept, HInv, SameOutside, Represents, OpenWords, UnuseWords;
      ghost var w, at, h := mem.Contents(), Where(), heap;
      StandsHas(w, at, h);
      ManagerPart(w, at, h);
      AllocSucceedsIff(h.pool, 0);
      var page := man.AllocPages(0);
      ghost var v := mem.Contents();
      if page == None {
        FailedRequestStands(w, v, at, Where(), h);
        return NULL;
      }
      block := UNITS * page.value;
      FillPage(page.value, n, w, at, h);
    }

    /** Lays out the page just obtained and bins its rest. */
    method FillPage(p: nat, n: nat, ghost w: Words, ghost at: Place, ghost h: Heap)
      requires mem == man.mem && man.LaidOut() && heap == h && PageHandedOut(w, mem.Contents(), at, Where(), h, p, man.pool)
      requires 1 <= n <= MAX_REQUEST && |h.bins| == ARR_LEN
      modifies `heap, mem.first, mem.second
      ensures Valid() && LiveKept(w, mem.Contents(), man.limit, h)
      ensures heap == Open(h, p, man.pool, n)
    {
      hide Stands, LiveKept, OthersKept, HInv, SameOutside, Represents, OpenWords, UnuseWords;
      HandedOutStands(w, mem.Contents(), at, Where(), h, p, man.pool);
      NotHeld(h, man.limit, p, man.pool);
      ghost var x, z := OpenStands(w, mem.Contents(), at, Where(), h, p, man.pool, n);
      LayOut(UNITS * p, n);
      assert mem.Contents() == x;
      var rest := NextBlock(UNITS * p);
      SizeWordParts(UNITS - 3 - n, 0);
      assert heads + mem.second[rest] / BLOCK_SIZE - 1 == heads + UNITS - 4 - n;
      WriteFree(rest);
      assert mem.Contents() == z;
      heap := Open(h, p, man.pool, n);
      OthersAreAll(w, z, man.limit, h, Addr(p, 0));
    }

    /** Writes the three headers of a fresh page. */
    method LayOut(block: int, n: nat)
      requires mem.Valid() && 1 <= n <= MAX_REQUEST && 0 <= block && block + LAST < mem.first.Length
      modifies mem.first, mem.second
      ensures mem.Contents() == OpenWords(old(mem.Contents()), block, n)
      ensures NextBlock(block) == block + 1 + n
    {
      hide PayloadUnits;
      SizeWordParts(n, 1);
      SizeWordParts(UNITS - 3 - n, 0);
      mem.first[block] := NULL;
      mem.second[block] := BLOCK_SIZE * n + 1;
      var rest := NextBlock(block);
      mem.first[rest] := block;
      mem.second[rest] := BLOCK_SIZE * (block + UNITS - (rest + 1) - 1);
      var end := NextBlock(rest);
      mem.first[end] := rest;
      mem.second[end] := 1;
    }

    /** Serves a request from the exact bin, the next one, the first larger one, or a new page. */
    method Malloc(bytes: nat) returns (addr: int, ghost r: Option<Addr>)
      requires Valid() && bytes <= MAX_BYTES
      modifies `heap, man, man.bytes, mem.first, mem.second
      ensures Valid()
      ensures UnitsFor(bytes) <= MAX_REQUEST && (r, heap) == MallocBlk(old(heap), man.limit, UnitsFor(bytes))
      ensures addr == if r == None then NULL else Payload(r.value)
      ensures LiveKept(old(mem.Contents()), mem.Contents(), man.limit, old(heap))
    {
      hide Stands, LiveKept, OthersKept, HInv, Live, MarkUsed, Cut, Open, UnitsFor, Alloc;
      UnitsBounded(bytes);
      var n := UnitsFor(bytes);
      ghost var w, h := mem.Contents(), heap;
      StandsHas(w, Where(), h);
      var id := n - 1;
      BinReads(w, Where(), h, id);
      var isEmpty := mem.ListIsEmpty(heads + id, Image(Payload, h.bins[id]));
      if !isEmpty {
        var block := TakeFirst(id);
        OthersAreAll(w, mem.Contents(), man.limit, h, h.bins[id][0]);
        return block + 1, Some(h.bins[id][0]);
      }
      id := id + 1;
      BinReads(w, Where(), h, id);
      isEmpty := mem.ListIsEmpty(heads + id, Image(Payload, h.bins[id]));
      if !isEmpty {
        var block := TakeFirst(id);
        OthersAreAll(w, mem.Contents(), man.limit, h, h.bins[id][0]);
        return block + 1, Some(h.bins[id][0]);
      }
      id := id + 1;
      while id < ARR_LEN
        invariant n + 1 <= id <= ARR_LEN && FirstBin(h.bins, n + 1) == FirstBin(h.bins, id)
        invariant Valid() && heap == h && mem.Contents() == w
      {
        BinReads(w, Where(), h, id);
        isEmpty := mem.ListIsEmpty(heads + id, Image(Payload, h.bins[id]));
        if !isEmpty {
          var block := TakeAndCut(id, n);
          return block + 1, Some(h.bins[id][0]);
        }
        id := id + 1;
      }
      var block := OpenPage(n);
      if block == NULL {
        return NULL, None;
      }
      return block + 1, Some(Addr(block / UNITS, 0));
    }
  }

  /** The address that is handed out is the first unit of a payload that holds the request. */
  lemma PayloadHolds(h: Heap, limit: nat, bytes: nat)
    requires HInv(h, limit) && bytes <= MAX_BYTES
    ensures UnitsFor(bytes) <= MAX_REQUEST
    ensures var (a, g) := MallocBlk(h, limit, UnitsFor(bytes));
            a.Some? ==>
              && LiveAt(g.rows, a.value)
              && forall u: int :: 8 * Payload(a.value) <= u < 8 * Payload(a.value) + bytes ==> InPayload(g.rows, a.value, u / 8)
  {
    hide HInv, MallocBlk, Live;
    UnitsBounded(bytes);
    MallocMeans(h, limit, UnitsFor(bytes));
  }

  lemma ManagerPart(w: Words, at: Place, h: Heap)
    requires Stands(w, at, h)
    ensures Represents(w, at.bytes, at.spare, at.manHeads, h.pool, at.limit)
  {
    hide Represents, HInv, Mirrors;
  }

  lemma HandedOutStands(w: Words, v: Words, at: Place, now: Place, h: Heap, p: nat, pool: Pool)
    requires PageHandedOut(w, v, at, now, h, p, pool)
    ensures Stands(w, at, h) && HInv(h, at.limit) && |h.bins| == ARR_LEN && |h.pool| == TOTAL_LEVEL
  {
    hide HInv, Represents, SameOutside, Mirrors;
  }

  lemma NotHeld(h: Heap, limit: nat, p: nat, pool: Pool)
    requires HInv(h, limit) && Alloc(h.pool, 0) == (Some(p), Some(pool))
    ensures !LiveAt(h.rows, Addr(p, 0))
  {
    hide RowsInv, Binned;
    AllocTakesBlock(h.pool, limit, 0);
    assert IsFree(h.pool, p);
  }

  lemma PageFreeable(w: Words, at: Place, h: Heap, a: Addr)
    requires Stands(w, at, h) && LiveAt(h.rows, a) && FillsPage(h, a)
    ensures Represents(w, at.bytes, at.spare, at.manHeads, h.pool, at.limit)
    ensures Aligned(a.page, 0) && a.page + Pow2(0) <= at.limit && BlockTaken(h.pool, a.page, 0)
    ensures Free(h.pool, a.page, 0).Some?
  {
    hide Represents, Mirrors, Binned, RowsInv;
    FillsPageMeans(h, at.limit, a);
    DropKeeps(h, at.limit, a);
  }

  /** sizeof(allocator_t): one pointer and the bin heads. */
  const RECORD_SIZE: nat := 4 + 8 * ARR_LEN

  /** Index of the highest set bit. */
  function Log2(num: nat): (r: nat)
    requires num > 0
    ensures Pow2(r) <= num < 2 * Pow2(r)
  {
    if num == 1 then 0 else 1 + Log2(num / 2)
  }

  /** The smallest level whose blocks hold the given number of bytes. */
  function GetPagePow(size: nat): (k: nat)
    requires size > 0
    ensures PAGE_SIZE * Pow2(k) >= size
    ensures k > 0 ==> PAGE_SIZE * Pow2(k - 1) < size
  {
    var pageNum := AlignTo(size, PAGE_SIZE) / PAGE_SIZE;
    if Pow2(Log2(pageNum)) == pageNum then Log2(pageNum) else Log2(pageNum) + 1
  }

  lemma RecordPages()
    ensures GetPagePow(RECORD_SIZE) == 0
  {
  }

  lemma OnePage(pool: Pool)
    requires |pool| == TOTAL_LEVEL
    ensures (forall q :: Aligned(q, 0) ==> !RunFree(pool, q, 0)) <==> forall x: nat :: !IsFree(pool, x)
  {
    forall x: nat ensures IsFree(pool, x) <==> RunFree(pool, x, 0) {}
  }

  /** A heap without pages over any well-formed pool. */
  lemma EmptyHeap(pool: Pool, limit: nat)
    requires Inv(pool, limit)
    ensures HInv(Heap(map[], seq(ARR_LEN, _ => []), pool), limit)
  {
    forall q: nat ensures RunReserved(map[], pool, q) {
      TopRunNotFree(pool, limit, q);
    }
  }
}
