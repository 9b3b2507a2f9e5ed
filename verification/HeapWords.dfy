/** The heap as it stands in memory: header words and bin rings.

    A block at unit u keeps the unit of its predecessor in the first word of u and its size in
    bytes, with the used flag in bit 0, in the second.  Its payload starts at u + 1, and while
    it is free that unit is its node in the ring of the bin of its size.

    Each section states one step of the allocator twice: what it writes, as a function on
    words, and that afterwards the words mirror the heap that the model's step gives.  The
    last sections say what a step leaves alone: headers and payloads of all other blocks. */
module HeapWords {
  import opened Pages
  import opened Sequences
  import opened Buddy
  import opened Donate
  import opened Lists
  import opened Bitmaps
  import opened PageLists
  import opened Rows
  import opened Heap
  import opened HeapRuns

  /** The unit of a block header. */
  ghost function Unit(a: Addr): int {
    UNITS * a.page + a.off
  }

  /** The unit a caller is given; while the block is free, its list node. */
  ghost function Payload(a: Addr): int {
    Unit(a) + 1
  }

  /** First header word: the previous block or NULL. */
  ghost function PrevWord(a: Addr, hd: Header): int {
    if hd.prev == NULL then NULL else UNITS * a.page + hd.prev
  }

  /** Payload units in a size word: the low flag bits are masked off. */
  function PayloadUnits(word: int): int {
    (word - word % 4) / BLOCK_SIZE
  }

  /** Second header word: payload bytes with the used flag in bit 0. */
  ghost function SizeWord(hd: Header): int {
    BLOCK_SIZE * hd.size + if hd.used then 1 else 0
  }

  ghost predicate HeaderIs(w: Words, a: Addr, hd: Header) {
    InMemory(w, Unit(a)) && w.first[Unit(a)] == PrevWord(a, hd) && w.second[Unit(a)] == SizeWord(hd)
  }

  ghost predicate HeadersMatch(w: Words, rows: map<nat, Row>) {
    forall a {:trigger HeaderAt(rows, a)} :: HeaderAt(rows, a) ==> HeaderIs(w, a, At(rows, a))
  }

  ghost predicate BinRings(w: Words, heads: nat, bins: seq<seq<Addr>>)
    requires |bins| == ARR_LEN
  {
    forall id :: 0 <= id < ARR_LEN ==> Ring(w, heads + id, Image(Payload, bins[id]))
  }

  ghost predicate Mirrors(w: Words, heads: nat, h: Heap)
    requires |h.bins| == ARR_LEN
  {
    |w.first| == |w.second| && HeadersMatch(w, h.rows) && BinRings(w, heads, h.bins)
  }

  ghost function SetFirst(w: Words, u: int, x: int): Words
    requires InMemory(w, u)
  {
    w.(first := w.first[u := x])
  }

  ghost function SetSecond(w: Words, u: int, x: int): Words
    requires InMemory(w, u)
  {
    w.(second := w.second[u := x])
  }

  // ----- no two roles share a unit -----

  lemma UnitsInPage(h: Heap, limit: nat, a: Addr)
    requires HInv(h, limit) && HeaderAt(h.rows, a)
    ensures a.off <= LAST && Unit(a) / UNITS == a.page && Unit(a) % UNITS == a.off && 0 <= Unit(a) < UNITS * limit
    ensures a.off < LAST ==> Payload(a) / UNITS == a.page && Payload(a) < UNITS * limit
  {
    assert Placed(h.rows[a.page], a.off);
  }

  lemma UnitsDiffer(h: Heap, limit: nat, a: Addr, b: Addr)
    requires HInv(h, limit) && HeaderAt(h.rows, a) && HeaderAt(h.rows, b)
    ensures a != b ==> Unit(a) != Unit(b)
    ensures At(h.rows, b).size > 0 ==> Unit(a) != Payload(b)
  {
    UnitsInPage(h, limit, a);
    UnitsInPage(h, limit, b);
    assert a.page == b.page ==> Apart(h.rows[b.page], b.off, a.off);
    assert Placed(h.rows[b.page], b.off);
  }

  /** A list node is the payload of a listed block. */
  lemma NodeIsPayload(h: Heap, limit: nat, id: nat, u: int) returns (b: Addr)
    requires HInv(h, limit) && id < ARR_LEN && u in Image(Payload, h.bins[id])
    ensures b in h.bins[id] && u == Payload(b) && FreeAt(h.rows, b) && At(h.rows, b).size == id + 1
    ensures b.off < LAST && 0 <= u < UNITS * limit && u / UNITS == b.page
  {
    var i :| 0 <= i < |h.bins[id]| && Image(Payload, h.bins[id])[i] == u;
    b := h.bins[id][i];
    assert b in h.bins[id];
    assert FreeAt(h.rows, b);
    assert Placed(h.rows[b.page], b.off);
    UnitsInPage(h, limit, b);
  }

  /** What a change touches when it is confined to one bin and one header. */
  ghost predicate OnlyBinAnd(w: Words, v: Words, heads: nat, h: Heap, id: nat, a: Addr)
    requires |h.bins| == ARR_LEN && id < ARR_LEN
  {
    && |v.first| == |w.first| && |v.second| == |w.second|
    && forall u :: u != heads + id && u !in Image(Payload, h.bins[id]) && u != Unit(a) && u != Payload(a) ==> SameAt(w, v, u)
  }

  /** Live payloads other than a's and everything outside held pages and bin heads. */
  ghost predicate Kept(w: Words, v: Words, heads: nat, rows: map<nat, Row>, a: Addr) {
    && |v.first| == |w.first| && |v.second| == |w.second|
    && (forall u :: !(heads <= u < heads + ARR_LEN) && (u < 0 || u / UNITS !in rows) ==> SameAt(w, v, u))
    && (forall b, u :: LiveAt(rows, b) && b != a && InPayload(rows, b, u) ==> SameAt(w, v, u))
  }

  lemma BinChangeKept(w: Words, v: Words, heads: nat, h: Heap, limit: nat, id: nat, a: Addr)
    requires HInv(h, limit) && UNITS * limit <= heads && id < ARR_LEN && HeaderAt(h.rows, a) && a.off < LAST
    requires OnlyBinAnd(w, v, heads, h, id, a)
    ensures Kept(w, v, heads, h.rows, a)
    ensures FreeAt(h.rows, a) ==> forall b, u :: LiveAt(h.rows, b) && InPayload(h.rows, b, u) ==> SameAt(w, v, u)
  {
    UnitsInPage(h, limit, a);
    forall u | !(heads <= u < heads + ARR_LEN) && (u < 0 || u / UNITS !in h.rows) ensures SameAt(w, v, u) {
      if u in Image(Payload, h.bins[id]) {
        var c := NodeIsPayload(h, limit, id, u);
      }
    }
    forall b, u | LiveAt(h.rows, b) && b != a && InPayload(h.rows, b, u) ensures SameAt(w, v, u) {
      PayloadsApart(h, limit, b, a, u);
      FirstUnitInPayload(h, limit, a);
      BelowLimit(h, limit, b, u);
      if u in Image(Payload, h.bins[id]) {
        var c := NodeIsPayload(h, limit, id, u);
        PayloadsApart(h, limit, b, c, u);
        FirstUnitInPayload(h, limit, c);
      }
    }
  }

  lemma FirstUnitInPayload(h: Heap, limit: nat, a: Addr)
    requires HInv(h, limit) && HeaderAt(h.rows, a) && a.off < LAST
    ensures InPayload(h.rows, a, Payload(a))
  {
    assert Placed(h.rows[a.page], a.off);
  }

  lemma BelowLimit(h: Heap, limit: nat, b: Addr, u: int)
    requires HInv(h, limit) && HeaderAt(h.rows, b) && InPayload(h.rows, b, u)
    ensures 0 <= u < UNITS * limit
  {
    assert Placed(h.rows[b.page], b.off);
  }

  /** Rings of other bins survive a change confined to one bin and one block's first units. */
  lemma OtherBinSame(w: Words, v: Words, heads: nat, h: Heap, limit: nat, id: nat, a: Addr, j: nat)
    requires HInv(h, limit) && UNITS * limit <= heads && id < ARR_LEN && j < ARR_LEN && j != id
    requires HeaderAt(h.rows, a) && a.off < LAST && (FreeAt(h.rows, a) ==> At(h.rows, a).size == id + 1)
    requires Ring(w, heads + j, Image(Payload, h.bins[j])) && OnlyBinAnd(w, v, heads, h, id, a)
    ensures Ring(v, heads + j, Image(Payload, h.bins[j]))
  {
    hide Ring;
    UnitsInPage(h, limit, a);
    forall u | u == heads + j || u in Image(Payload, h.bins[j]) ensures SameAt(w, v, u) {
      if u in Image(Payload, h.bins[j]) {
        var c := NodeIsPayload(h, limit, j, u);
        UnitsDiffer(h, limit, a, c);
        PayloadUnique(h, limit, a, c);
        if u in Image(Payload, h.bins[id]) {
          var d := NodeIsPayload(h, limit, id, u);
          PayloadUnique(h, limit, c, d);
        }
      } else if u in Image(Payload, h.bins[id]) {
        var d := NodeIsPayload(h, limit, id, u);
      }
    }
    RingFrame(w, v, heads + j, Image(Payload, h.bins[j]));
  }

  lemma PayloadUnique(h: Heap, limit: nat, a: Addr, b: Addr)
    requires HInv(h, limit) && HeaderAt(h.rows, a) && HeaderAt(h.rows, b)
    ensures a != b ==> Payload(a) != Payload(b)
  {
    UnitsDiffer(h, limit, a, b);
  }

  /** Headers survive, except the one rewritten. */
  lemma HeadersSame(w: Words, v: Words, heads: nat, h: Heap, limit: nat, id: nat, a: Addr, now: map<nat, Row>)
    requires HInv(h, limit) && UNITS * limit <= heads && id < ARR_LEN && HeaderAt(h.rows, a) && a.off < LAST
    requires HeadersMatch(w, h.rows) && OnlyBinAnd(w, v, heads, h, id, a)
    requires forall b :: HeaderAt(now, b) <==> HeaderAt(h.rows, b)
    requires forall b :: HeaderAt(now, b) && b != a ==> At(now, b) == At(h.rows, b)
    requires HeaderIs(v, a, At(now, a))
    ensures HeadersMatch(v, now)
  {
    forall b | HeaderAt(now, b) ensures HeaderIs(v, b, At(now, b)) {
      if b != a {
        UnitsInPage(h, limit, b);
        UnitsDiffer(h, limit, b, a);
        assert Placed(h.rows[a.page], a.off);
        if Unit(b) in Image(Payload, h.bins[id]) {
          var c := NodeIsPayload(h, limit, id, Unit(b));
          UnitsDiffer(h, limit, b, c);
        }
        assert SameAt(w, v, Unit(b));
      }
    }
  }

  // ----- the steps on memory -----

  /** list_remove, then the used flag. */
  ghost function UseWords(w: Words, u: int): Words
    requires InMemory(w, u) && InMemory(w, u + 1) && InMemory(w, w.first[u + 1]) && InMemory(w, w.second[u + 1])
    requires w.first[u + 1] != u + 1
  {
    var v := Unlinked(w, u + 1);
    SetSecond(v, u, v.second[u] - v.second[u] % 2 + 1)
  }

  /** list_addFirst, then the flag is cleared. */
  ghost function UnuseWords(w: Words, head: int, u: int): Words
    requires InMemory(w, u) && InMemory(w, u + 1) && InMemory(w, head) && InMemory(w, w.second[head]) && head != u + 1
  {
    var v := Linked(w, head, u + 1);
    SetSecond(v, u, v.second[u] - v.second[u] % 2)
  }

  /** The bin of the block after it was taken out. */
  lemma UseRing(w: Words, heads: nat, h: Heap, limit: nat, a: Addr, id: nat)
    requires HInv(h, limit) && UNITS * limit <= heads && FreeAt(h.rows, a) && id == At(h.rows, a).size - 1 < ARR_LEN
    requires Ring(w, heads + id, Image(Payload, h.bins[id])) && HeaderIs(w, a, At(h.rows, a))
    ensures var u := Unit(a);
            && InMemory(w, u) && InMemory(w, u + 1) && InMemory(w, w.first[u + 1]) && InMemory(w, w.second[u + 1])
            && w.first[u + 1] != u + 1
    ensures var x := UseWords(w, Unit(a));
            && Ring(x, heads + id, Image(Payload, Remove(h.bins[id], a)))
            && OnlyBinAnd(w, x, heads, h, id, a)
            && HeaderIs(x, a, At(h.rows, a).(used := true))
  {
    hide Ring, HInv, Image, Remove, NoDup, Unlinked;
    BinOf(h, limit, id);
    UnlinkFromBin(w, heads, h, limit, a, id);
    var v := Unlinked(w, Unit(a) + 1);
    assert SameAt(w, v, Unit(a));
    var x := UseWords(w, Unit(a));
    SetSecondRing(v, Unit(a), x.second[Unit(a)], heads + id, Image(Payload, Remove(h.bins[id], a)));
  }

  /** Only the list operation: the header of the block is no node and no bin head. */
  lemma UnlinkFromBin(w: Words, heads: nat, h: Heap, limit: nat, a: Addr, id: nat)
    requires HInv(h, limit) && UNITS * limit <= heads && FreeAt(h.rows, a) && id == At(h.rows, a).size - 1 < ARR_LEN
    requires Ring(w, heads + id, Image(Payload, h.bins[id])) && InMemory(w, Unit(a))
    ensures var u := Unit(a);
            && InMemory(w, u + 1) && InMemory(w, w.first[u + 1]) && InMemory(w, w.second[u + 1]) && w.first[u + 1] != u + 1
            && u != heads + id && u !in Image(Payload, Remove(h.bins[id], a))
    ensures var v := Unlinked(w, Unit(a) + 1);
            && Ring(v, heads + id, Image(Payload, Remove(h.bins[id], a))) && SameAt(w, v, Unit(a))
            && |v.first| == |w.first| && |v.second| == |w.second|
            && forall u :: u != heads + id && u !in Image(Payload, h.bins[id]) ==> SameAt(w, v, u)
  {
    hide Ring, HInv, NoDup, Remove;
    BinOf(h, limit, id);
    FreeBlockBounds(h, limit, a);
    var i :| 0 <= i < |h.bins[id]| && h.bins[id][i] == a;
    var nodes := Image(Payload, h.bins[id]);
    UnlinkedRing(w, heads + id, nodes, i);
    ImageRemove(Payload, h.bins[id], i);
    UnitsInPage(h, limit, a);
    NotANode(h, limit, id, a);
    assert forall u :: u in nodes[..i] + nodes[i + 1..] ==> u in nodes;
  }

  /** Rewriting a word outside a ring leaves the ring alone. */
  lemma SetSecondRing(v: Words, u: int, word: int, head: int, nodes: seq<int>)
    requires Ring(v, head, nodes) && InMemory(v, u) && u != head && u !in nodes
    ensures Ring(SetSecond(v, u, word), head, nodes)
  {
    hide Ring;
    RingFrame(v, SetSecond(v, u, word), head, nodes);
  }

  lemma UseMirrors(w: Words, heads: nat, h: Heap, limit: nat, a: Addr)
    requires HInv(h, limit) && Mirrors(w, heads, h) && UNITS * limit <= heads && FreeAt(h.rows, a)
    ensures var u := Unit(a);
            && InMemory(w, u) && InMemory(w, u + 1) && InMemory(w, w.first[u + 1]) && InMemory(w, w.second[u + 1])
            && w.first[u + 1] != u + 1 && 1 <= At(h.rows, a).size <= ARR_LEN
    ensures var v := UseWords(w, Unit(a));
            Mirrors(v, heads, MarkUsed(h, a)) && Kept(w, v, heads, h.rows, a)
  {
    hide Ring, Kept, HInv, OnlyBinAnd, UseWords;
    FreeBlockBounds(h, limit, a);
    var id := At(h.rows, a).size - 1;
    BinOf(h, limit, id);
    assert HeaderIs(w, a, At(h.rows, a));
    UseRing(w, heads, h, limit, a, id);
    var x := UseWords(w, Unit(a));
    BinChangeKept(w, x, heads, h, limit, id, a);
    var g := MarkUsed(h, a);
    OnlyAt(h.rows, g.rows, a);
    HeadersSame(w, x, heads, h, limit, id, a, g.rows);
    forall j | 0 <= j < ARR_LEN && j != id ensures Ring(x, heads + j, Image(Payload, g.bins[j])) {
      OtherBinSame(w, x, heads, h, limit, id, a, j);
    }
    OnlyBinSizes(w, x, heads, h, id, a);
  }

  lemma OnlyBinSizes(w: Words, v: Words, heads: nat, h: Heap, id: nat, a: Addr)
    requires |h.bins| == ARR_LEN && id < ARR_LEN && OnlyBinAnd(w, v, heads, h, id, a)
    ensures |v.first| == |w.first| && |v.second| == |w.second|
  {
  }

  lemma BinOf(h: Heap, limit: nat, id: nat)
    requires HInv(h, limit) && id < ARR_LEN
    ensures |h.bins| == ARR_LEN && NoDup(h.bins[id])
  {
  }

  /** A header is neither a list node nor a bin head. */
  lemma NotANode(h: Heap, limit: nat, id: nat, a: Addr)
    requires HInv(h, limit) && id < ARR_LEN && HeaderAt(h.rows, a)
    ensures Unit(a) !in Image(Payload, h.bins[id])
  {
    if Unit(a) in Image(Payload, h.bins[id]) {
      var c := NodeIsPayload(h, limit, id, Unit(a));
      UnitsDiffer(h, limit, a, c);
    }
  }

  /** The bin of the block after it was put in. */
  lemma UnuseRing(w: Words, heads: nat, h: Heap, limit: nat, a: Addr, id: nat)
    requires HInv(h, limit) && UNITS * limit <= heads && LiveAt(h.rows, a) && id == At(h.rows, a).size - 1 < ARR_LEN
    requires |h.bins| == ARR_LEN && BinRings(w, heads, h.bins) && HeaderIs(w, a, At(h.rows, a))
    ensures var u, head := Unit(a), heads + id;
            && InMemory(w, u) && InMemory(w, u + 1) && InMemory(w, head) && InMemory(w, w.second[head]) && head != u + 1
    ensures var x := UnuseWords(w, heads + id, Unit(a));
            && Ring(x, heads + id, Image(Payload, [a] + h.bins[id]))
            && OnlyBinAnd(w, x, heads, h, id, a)
            && HeaderIs(x, a, At(h.rows, a).(used := false))
  {
    hide Ring, HInv;
    UsedBlockBounds(h, limit, a);
    UnitsInPage(h, limit, a);
    HeadInMemory(w, heads, h, id);
    NewNode(h, limit, id, a);
    LinkedRing(w, heads + id, Unit(a) + 1, Image(Payload, h.bins[id]));
    var v := Linked(w, heads + id, Unit(a) + 1);
    NotANode(h, limit, id, a);
    assert SameAt(w, v, Unit(a));
    var x := UnuseWords(w, heads + id, Unit(a));
    ImageAppend(Payload, [a], h.bins[id]);
    assert Image(Payload, [a]) == [Unit(a) + 1];
    SetSecondRing(v, Unit(a), x.second[Unit(a)], heads + id, Image(Payload, [a] + h.bins[id]));
  }

  lemma UnuseMirrors(w: Words, heads: nat, h: Heap, limit: nat, a: Addr)
    requires HInv(h, limit) && Mirrors(w, heads, h) && UNITS * limit <= heads && LiveAt(h.rows, a)
    ensures 1 <= At(h.rows, a).size <= ARR_LEN
    ensures var u, head := Unit(a), heads + At(h.rows, a).size - 1;
            && InMemory(w, u) && InMemory(w, u + 1) && InMemory(w, head) && InMemory(w, w.second[head]) && head != u + 1
    ensures var v := UnuseWords(w, heads + At(h.rows, a).size - 1, Unit(a));
            Mirrors(v, heads, MarkFree(h, a)) && Kept(w, v, heads, h.rows, a)
  {
    hide Ring, Kept, HInv, OnlyBinAnd, UnuseWords;
    UsedBlockBounds(h, limit, a);
    var id := At(h.rows, a).size - 1;
    BinOf(h, limit, id);
    assert HeaderIs(w, a, At(h.rows, a));
    UnuseRing(w, heads, h, limit, a, id);
    var x := UnuseWords(w, heads + id, Unit(a));
    BinChangeKept(w, x, heads, h, limit, id, a);
    var g := MarkFree(h, a);
    OnlyAt(h.rows, g.rows, a);
    HeadersSame(w, x, heads, h, limit, id, a, g.rows);
    forall j | 0 <= j < ARR_LEN && j != id ensures Ring(x, heads + j, Image(Payload, g.bins[j])) {
      OtherBinSame(w, x, heads, h, limit, id, a, j);
    }
    OnlyBinSizes(w, x, heads, h, id, a);
  }

  lemma HeadInMemory(w: Words, heads: nat, h: Heap, id: nat)
    requires |h.bins| == ARR_LEN && BinRings(w, heads, h.bins) && id < ARR_LEN
    ensures InMemory(w, heads + id) && InMemory(w, w.second[heads + id])
    ensures w.first[heads + id] == heads + id <==> h.bins[id] == []
    ensures h.bins[id] != [] ==> w.second[heads + id] == Payload(h.bins[id][0])
  {
    Neighbours(w, heads + id, Image(Payload, h.bins[id]), -1);
  }

  /** The payload of a live block is on no list. */
  lemma NewNode(h: Heap, limit: nat, id: nat, a: Addr)
    requires HInv(h, limit) && id < ARR_LEN && LiveAt(h.rows, a)
    ensures Payload(a) !in Image(Payload, h.bins[id])
  {
    if Payload(a) in Image(Payload, h.bins[id]) {
      var c := NodeIsPayload(h, limit, id, Payload(a));
      PayloadUnique(h, limit, a, c);
    }
  }

  /** Bin rings survive any change that spares list nodes and bin heads. */
  lemma BinRingsSame(w: Words, v: Words, heads: nat, h: Heap, limit: nat)
    requires HInv(h, limit) && BinRings(w, heads, h.bins) && UNITS * limit <= heads
    requires forall u :: heads <= u < heads + ARR_LEN ==> SameAt(w, v, u)
    requires forall b :: FreeAt(h.rows, b) ==> SameAt(w, v, Payload(b))
    ensures BinRings(v, heads, h.bins)
  {
    hide Ring;
    forall id | 0 <= id < ARR_LEN ensures Ring(v, heads + id, Image(Payload, h.bins[id])) {
      forall u | u in Image(Payload, h.bins[id]) ensures SameAt(w, v, u) {
        var b := NodeIsPayload(h, limit, id, u);
      }
      RingFrame(w, v, heads + id, Image(Payload, h.bins[id]));
    }
  }

  // ----- merging and splitting in memory -----

  ghost function MergeWords(w: Words, o: int, p: int, q: int): Words
    requires InMemory(w, o) && InMemory(w, p) && InMemory(w, q)
  {
    SetFirst(SetSecond(w, o, w.second[o] + w.second[p] + BLOCK_SIZE - 1), q, o)
  }

  lemma MergeMirrors(w: Words, heads: nat, h: Heap, limit: nat, page: nat, o: nat)
    requires HInv(h, limit) && Mirrors(w, heads, h) && UNITS * limit <= heads && page in h.rows
    requires var r := h.rows[page];
             && o in r && Next(r, o) in r && Next(r, Next(r, o)) in r
             && RowInv(r) && o != LAST && r[o].used && Next(r, o) != LAST && r[Next(r, o)].used
    ensures var r := h.rows[page];
            && InMemory(w, UNITS * page + o) && InMemory(w, UNITS * page + Next(r, o))
            && InMemory(w, UNITS * page + Next(r, Next(r, o)))
    ensures var r := h.rows[page];
            var v := MergeWords(w, UNITS * page + o, UNITS * page + Next(r, o), UNITS * page + Next(r, Next(r, o)));
            && Mirrors(v, heads, WithRow(h, page, Merge(r, o)))
            && |v.first| == |w.first| && |v.second| == |w.second|
            && forall u :: u != UNITS * page + o && u != UNITS * page + Next(r, Next(r, o)) ==> SameAt(w, v, u)
  {
    hide Ring, HInv, BinRings;
    var r := h.rows[page];
    var a, b, c := Addr(page, o), Addr(page, Next(r, o)), Addr(page, Next(r, Next(r, o)));
    assert HeaderAt(h.rows, a) && HeaderAt(h.rows, b) && HeaderAt(h.rows, c);
    assert HeaderIs(w, a, At(h.rows, a)) && HeaderIs(w, b, At(h.rows, b)) && HeaderIs(w, c, At(h.rows, c));
    var v := MergeWords(w, Unit(a), Unit(b), Unit(c));
    HeaderOnly(h, limit, a);
    HeaderOnly(h, limit, c);
    BinRingsSame(w, v, heads, h, limit);
    var g := WithRow(h, page, Merge(r, o));
    forall x | HeaderAt(g.rows, x) ensures HeaderIs(v, x, At(g.rows, x)) {
      assert HeaderAt(h.rows, x) && HeaderIs(w, x, At(h.rows, x));
      UnitsDiffer(h, limit, x, a);
      UnitsDiffer(h, limit, x, c);
    }
  }

  /** A header unit is no list node and no bin head. */
  lemma HeaderOnly(h: Heap, limit: nat, a: Addr)
    requires HInv(h, limit) && HeaderAt(h.rows, a)
    ensures forall b :: FreeAt(h.rows, b) ==> Payload(b) != Unit(a)
    ensures 0 <= Unit(a) < UNITS * limit && Unit(a) / UNITS == a.page
  {
    UnitsInPage(h, limit, a);
    forall b | FreeAt(h.rows, b) ensures Payload(b) != Unit(a) {
      UnitsDiffer(h, limit, a, b);
      assert Placed(h.rows[b.page], b.off);
    }
  }

  /** The three header writes of a split, in order. */
  ghost function SplitWords(w: Words, o: int, p: int, q: int, size: int, rest: int): Words
    requires InMemory(w, o) && InMemory(w, p) && InMemory(w, q)
  {
    var v := SetSecond(w, o, size);
    var x := SetFirst(SetFirst(v, p, o), q, p);
    SetSecond(x, p, rest)
  }

  lemma SplitMirrors(w: Words, heads: nat, h: Heap, limit: nat, a: Addr, n: nat)
    requires HInv(h, limit) && Mirrors(w, heads, h) && UNITS * limit <= heads
    requires LiveAt(h.rows, a) && 1 <= n && n + 2 <= At(h.rows, a).size
    requires var r := h.rows[a.page]; Next(r, a.off) in r && a.off + 1 + n !in r
    ensures var r := h.rows[a.page];
            InMemory(w, Unit(a)) && InMemory(w, Unit(a) + 1 + n) && InMemory(w, UNITS * a.page + Next(r, a.off))
    ensures var r := h.rows[a.page];
            var v := SplitWords(w, Unit(a), Unit(a) + 1 + n, UNITS * a.page + Next(r, a.off),
                                BLOCK_SIZE * n + 1, BLOCK_SIZE * (r[a.off].size - n - 1) + 1);
            Mirrors(v, heads, WithRow(h, a.page, Split(r, a.off, n)))
            && |v.first| == |w.first| && |v.second| == |w.second|
            && forall u :: u != Unit(a) && u != Unit(a) + 1 + n && u != UNITS * a.page + Next(r, a.off) ==> SameAt(w, v, u)
  {
    hide Ring, HInv, BinRings, HeadersMatch, SplitWords;
    var r := h.rows[a.page];
    var b, c := Addr(a.page, a.off + 1 + n), Addr(a.page, Next(r, a.off));
    SplitInMemory(w, heads, h, limit, a, n);
    var v := SplitWords(w, Unit(a), Unit(b), Unit(c), BLOCK_SIZE * n + 1, BLOCK_SIZE * (r[a.off].size - n - 1) + 1);
    SplitTouches(w, Unit(a), Unit(b), Unit(c), BLOCK_SIZE * n + 1, BLOCK_SIZE * (r[a.off].size - n - 1) + 1);
    HeaderOnly(h, limit, a);
    HeaderOnly(h, limit, c);
    CutPointOnly(h, limit, a, n);
    BinRingsSame(w, v, heads, h, limit);
    SplitHeaders(w, heads, h, limit, a, n);
  }

  lemma SplitTouches(w: Words, o: int, p: int, q: int, size: int, rest: int)
    requires InMemory(w, o) && InMemory(w, p) && InMemory(w, q) && |w.first| == |w.second|
    ensures var v := SplitWords(w, o, p, q, size, rest);
            && |v.first| == |w.first| && |v.second| == |w.second|
            && forall u :: u != o && u != p && u != q ==> SameAt(w, v, u)
  {
  }

  lemma SplitInMemory(w: Words, heads: nat, h: Heap, limit: nat, a: Addr, n: nat)
    requires HInv(h, limit) && Mirrors(w, heads, h) && UNITS * limit <= heads
    requires LiveAt(h.rows, a) && 1 <= n && n + 2 <= At(h.rows, a).size && Next(h.rows[a.page], a.off) in h.rows[a.page]
    ensures var c := Addr(a.page, Next(h.rows[a.page], a.off));
            && HeaderAt(h.rows, c) && HeaderIs(w, a, At(h.rows, a)) && HeaderIs(w, c, At(h.rows, c))
            && InMemory(w, Unit(a) + 1 + n)
  {
    hide Ring, HInv, BinRings;
    UsedBlockBounds(h, limit, a);
    var c := Addr(a.page, Next(h.rows[a.page], a.off));
    assert HeaderAt(h.rows, c);
    assert HeaderIs(w, a, At(h.rows, a)) && HeaderIs(w, c, At(h.rows, c));
  }

  /** The headers of the page after the cut, and all others. */
  lemma SplitHeaders(w: Words, heads: nat, h: Heap, limit: nat, a: Addr, n: nat)
    requires HInv(h, limit) && Mirrors(w, heads, h) && UNITS * limit <= heads
    requires LiveAt(h.rows, a) && 1 <= n && n + 2 <= At(h.rows, a).size
    requires var r := h.rows[a.page]; Next(r, a.off) in r && a.off + 1 + n !in r
    requires var c := Addr(a.page, Next(h.rows[a.page], a.off));
             HeaderIs(w, a, At(h.rows, a)) && HeaderIs(w, c, At(h.rows, c)) && InMemory(w, Unit(a) + 1 + n)
    ensures var r := h.rows[a.page];
            var v := SplitWords(w, Unit(a), Unit(a) + 1 + n, UNITS * a.page + Next(r, a.off),
                                BLOCK_SIZE * n + 1, BLOCK_SIZE * (r[a.off].size - n - 1) + 1);
            HeadersMatch(v, WithRow(h, a.page, Split(r, a.off, n)).rows)
  {
    hide Ring, HInv, BinRings;
    var r := h.rows[a.page];
    var b, c := Addr(a.page, a.off + 1 + n), Addr(a.page, Next(r, a.off));
    var v := SplitWords(w, Unit(a), Unit(b), Unit(c), BLOCK_SIZE * n + 1, BLOCK_SIZE * (r[a.off].size - n - 1) + 1);
    var g := WithRow(h, a.page, Split(r, a.off, n));
    forall x | HeaderAt(g.rows, x) ensures HeaderIs(v, x, At(g.rows, x)) {
      if x != b {
        assert HeaderAt(h.rows, x) && HeaderIs(w, x, At(h.rows, x));
        UnitsDiffer(h, limit, x, a);
        UnitsDiffer(h, limit, x, c);
        PayloadsApart(h, limit, a, x, Unit(b));
      }
    }
  }

  lemma SplitKept(w: Words, v: Words, heads: nat, h: Heap, limit: nat, a: Addr, n: nat)
    requires HInv(h, limit) && UNITS * limit <= heads
    requires LiveAt(h.rows, a) && 1 <= n && n + 2 <= At(h.rows, a).size && Next(h.rows[a.page], a.off) in h.rows[a.page]
    requires |v.first| == |w.first| && |v.second| == |w.second|
    requires forall u :: u != Unit(a) && u != Unit(a) + 1 + n && u != UNITS * a.page + Next(h.rows[a.page], a.off) ==> SameAt(w, v, u)
    ensures Kept(w, v, heads, h.rows, a)
  {
    hide HInv;
    var c := Addr(a.page, Next(h.rows[a.page], a.off));
    HeaderOnly(h, limit, a);
    HeaderOnly(h, limit, c);
    CutPointOnly(h, limit, a, n);
    forall y, u | LiveAt(h.rows, y) && y != a && InPayload(h.rows, y, u) ensures SameAt(w, v, u) {
      PayloadsApart(h, limit, y, a, u);
      PayloadsApart(h, limit, y, c, u);
    }
  }

  /** The unit where a live block is cut lies in its payload. */
  lemma CutPointOnly(h: Heap, limit: nat, a: Addr, n: nat)
    requires HInv(h, limit) && LiveAt(h.rows, a) && 1 <= n && n + 2 <= At(h.rows, a).size
    ensures var u := Unit(a) + 1 + n;
            && InPayload(h.rows, a, u) && 0 <= u < UNITS * limit && u / UNITS == a.page
            && forall b :: FreeAt(h.rows, b) ==> Payload(b) != u
  {
    var u := Unit(a) + 1 + n;
    BelowLimit(h, limit, a, u);
    PayloadsApart(h, limit, a, a, u);
    forall b | FreeAt(h.rows, b) ensures Payload(b) != u {
      FreeBlockBounds(h, limit, b);
      FirstUnitInPayload(h, limit, b);
      PayloadsApart(h, limit, a, b, u);
    }
  }

  // ----- whole pages -----

  /** The six header writes that lay out a fresh page. */
  ghost function OpenWords(w: Words, u: int, n: nat): Words
    requires 1 <= n <= MAX_REQUEST && InMemory(w, u) && InMemory(w, u + LAST)
  {
    var rest, end := u + 1 + n, u + LAST;
    var v := SetSecond(SetFirst(w, u, NULL), u, BLOCK_SIZE * n + 1);
    var x := SetSecond(SetFirst(v, rest, u), rest, BLOCK_SIZE * (UNITS - 3 - n));
    SetSecond(SetFirst(x, end, rest), end, 1)
  }

  /** The rest of a fresh page is written free; with its flag set it would mirror NewRow. */
  lemma OpenMirrors(w: Words, heads: nat, h: Heap, limit: nat, p: nat, pool: Pool, n: nat)
    requires HInv(h, limit) && Mirrors(w, heads, h) && UNITS * limit <= heads
    requires p < limit && p !in h.rows && 1 <= n <= MAX_REQUEST && heads <= |w.first|
    ensures InMemory(w, UNITS * p) && InMemory(w, UNITS * p + LAST)
    ensures var u := UNITS * p;
            var v := OpenWords(w, u, n);
            && Mirrors(SetSecond(v, u + 1 + n, BLOCK_SIZE * (UNITS - 3 - n) + 1), heads, Heap(h.rows[p := NewRow(n)], h.bins, pool))
            && |v.first| == |w.first| && |v.second| == |w.second|
            && forall x :: !(u <= x < u + UNITS) ==> SameAt(w, v, x)
  {
    hide Ring, HInv, BinRings;
    var u := UNITS * p;
    var v := OpenWords(w, u, n);
    var x := SetSecond(v, u + 1 + n, BLOCK_SIZE * (UNITS - 3 - n) + 1);
    forall b | FreeAt(h.rows, b) ensures SameAt(w, x, Payload(b)) {
      FreeBlockBounds(h, limit, b);
      UnitsInPage(h, limit, b);
    }
    BinRingsSame(w, x, heads, h, limit);
    var rows := h.rows[p := NewRow(n)];
    OpenHeaders(w, p, n);
    forall a | HeaderAt(rows, a) && a.page != p ensures HeaderIs(x, a, At(rows, a)) {
      assert HeaderAt(h.rows, a) && HeaderIs(w, a, At(h.rows, a));
      UnitsInPage(h, limit, a);
    }
  }

  lemma OpenHeaders(w: Words, p: nat, n: nat)
    requires 1 <= n <= MAX_REQUEST && InMemory(w, UNITS * p) && InMemory(w, UNITS * p + LAST)
    ensures var x := SetSecond(OpenWords(w, UNITS * p, n), UNITS * p + 1 + n, BLOCK_SIZE * (UNITS - 3 - n) + 1);
            forall o :: o in NewRow(n) ==> HeaderIs(x, Addr(p, o), NewRow(n)[o])
  {
  }

  /** The flag bit that MarkFree clears makes no difference to the result. */
  lemma UnuseIgnoresFlag(w: Words, head: int, u: int, size: int)
    requires InMemory(w, u) && InMemory(w, u + 1) && InMemory(w, head) && InMemory(w, w.second[head]) && head != u + 1 && head != u
    requires w.second[u] == size && size % 2 == 0
    ensures var v := SetSecond(w, u, size + 1);
            InMemory(v, v.second[head]) && UnuseWords(v, head, u) == UnuseWords(w, head, u)
  {
    var v := SetSecond(w, u, size + 1);
    assert UnuseWords(v, head, u).second == UnuseWords(w, head, u).second;
  }

  /** Changes in pages that the heap does not hold leave it mirrored. */
  lemma ForeignChange(w: Words, v: Words, heads: nat, h: Heap, limit: nat)
    requires HInv(h, limit) && Mirrors(w, heads, h) && UNITS * limit <= heads
    requires |v.first| == |v.second|
    requires forall u :: heads <= u < heads + ARR_LEN ==> SameAt(w, v, u)
    requires forall u :: 0 <= u && u / UNITS in h.rows ==> SameAt(w, v, u)
    ensures Mirrors(v, heads, h)
  {
    hide Ring, HInv, BinRings;
    forall a | HeaderAt(h.rows, a) ensures HeaderIs(v, a, At(h.rows, a)) {
      UnitsInPage(h, limit, a);
      assert HeaderIs(w, a, At(h.rows, a));
    }
    forall b | FreeAt(h.rows, b) ensures SameAt(w, v, Payload(b)) {
      FreeBlockBounds(h, limit, b);
      UnitsInPage(h, limit, b);
    }
    BinRingsSame(w, v, heads, h, limit);
  }

  /** A page that is no longer held drops out of the mirror. */
  lemma DropMirrors(w: Words, heads: nat, h: Heap, g: Heap)
    requires |h.bins| == ARR_LEN && Mirrors(w, heads, h)
    requires g.bins == h.bins && forall a :: HeaderAt(g.rows, a) ==> HeaderAt(h.rows, a) && At(g.rows, a) == At(h.rows, a)
    ensures Mirrors(w, heads, g)
  {
    hide Ring, BinRings;
    forall a | HeaderAt(g.rows, a) ensures HeaderIs(w, a, At(g.rows, a)) {
      assert HeaderAt(h.rows, a);
    }
  }

  // ----- what callers can rely on -----

  /** Unit u lies in a page that is neither free nor held by the heap. */
  ghost predicate Foreign(h: Heap, limit: nat, u: int)
    requires |h.pool| == TOTAL_LEVEL
  {
    0 <= u < UNITS * limit && u / UNITS !in h.rows && !IsFree(h.pool, u / UNITS)
  }

  /** Nothing was written to the payload of a live block other than a, nor to a page that
      belongs to neither allocator. */
  ghost predicate OthersKept(w: Words, v: Words, limit: nat, h: Heap, a: Addr)
    requires |h.pool| == TOTAL_LEVEL
  {
    && |v.first| == |w.first| && |v.second| == |w.second|
    && (forall b, u :: LiveAt(h.rows, b) && b != a && InPayload(h.rows, b, u) ==> SameAt(w, v, u))
    && (forall u :: Foreign(h, limit, u) ==> SameAt(w, v, u))
  }

  lemma KeptIsOthersKept(w: Words, v: Words, heads: nat, limit: nat, h: Heap, a: Addr)
    requires |h.pool| == TOTAL_LEVEL && Kept(w, v, heads, h.rows, a) && UNITS * limit <= heads
    ensures OthersKept(w, v, limit, h, a)
  {
  }

  lemma OthersKeptTwice(w: Words, v: Words, x: Words, limit: nat, h: Heap, a: Addr, g: Heap, b: Addr)
    requires |h.pool| == |g.pool| == TOTAL_LEVEL && |w.first| == |w.second|
    requires OthersKept(w, v, limit, h, a) && OthersKept(v, x, limit, g, b)
    requires SamePages(h, g) && Live(h.rows) - {a} == Live(g.rows) - {b}
    ensures OthersKept(w, x, limit, h, a)
  {
    forall c, u | LiveAt(h.rows, c) && c != a && InPayload(h.rows, c, u) ensures SameAt(w, x, u) {
      assert c in Live(h.rows) - {a};
      assert c in Live(g.rows) - {b} && (Live(g.rows) - {b})[c] == (Live(h.rows) - {a})[c];
      assert InPayload(g.rows, c, u);
      assert SameAt(w, v, u) && SameAt(v, x, u);
    }
    forall u | Foreign(h, limit, u) ensures SameAt(w, x, u) {
      assert Foreign(g, limit, u);
      assert SameAt(w, v, u) && SameAt(v, x, u);
    }
  }

  /** Other parts of memory are enough for the page manager. */
  lemma ManagerKept(w: Words, v: Words, bytes: seq<Byte>, spare: int, manHeads: nat, pool: Pool, limit: nat)
    requires Represents(w, bytes, spare, manHeads, pool, limit)
    requires |v.first| == |v.second|
    requires forall u :: Owned(manHeads, pool, u) ==> SameAt(w, v, u)
    ensures Represents(v, bytes, spare, manHeads, pool, limit)
  {
    hide Ring, BitsMatch;
    forall k | 0 <= k < TOTAL_LEVEL ensures Ring(v, manHeads + k, Nodes(pool[k])) {
      forall n | n in Nodes(pool[k]) ensures SameAt(w, v, n) {
        NodeIsOwned(pool, limit, k, n);
      }
      RingFrame(w, v, manHeads + k, Nodes(pool[k]));
    }
  }

  /** Heap steps write only to held pages and bin heads: none of the manager's units. */
  lemma KeptForManager(w: Words, v: Words, heads: nat, manHeads: nat, h: Heap, limit: nat, a: Addr)
    requires HInv(h, limit) && Kept(w, v, heads, h.rows, a)
    requires UNITS * limit <= manHeads && manHeads + TOTAL_LEVEL <= heads
    ensures forall u :: Owned(manHeads, h.pool, u) ==> SameAt(w, v, u)
  {
    hide RowsInv, Binned;
    forall u | Owned(manHeads, h.pool, u) ensures SameAt(w, v, u) {
      if !(manHeads <= u < manHeads + TOTAL_LEVEL) {
        FreeBelowLimit(h.pool, limit, u / UNITS);
      }
    }
  }

  // ----- both allocators in one memory -----

  /** Where things stand: page manager heads above all pages, bin heads above those. */
  datatype Place = Place(limit: nat, manHeads: nat, heads: nat, bytes: seq<Byte>, spare: int)

  /** The memory carries the page manager's pool and the heap over it. */
  ghost predicate Stands(w: Words, at: Place, h: Heap) {
    && UNITS * at.limit <= at.manHeads && at.manHeads + TOTAL_LEVEL <= at.heads && at.heads + ARR_LEN <= |w.first|
    && |h.bins| == ARR_LEN && |h.pool| == TOTAL_LEVEL
    && Represents(w, at.bytes, at.spare, at.manHeads, h.pool, at.limit)
    && HInv(h, at.limit) && Mirrors(w, at.heads, h)
  }

  /** A heap step leaves the page manager standing. */
  lemma StepStands(w: Words, v: Words, at: Place, h: Heap, g: Heap, a: Addr)
    requires Stands(w, at, h) && Kept(w, v, at.heads, h.rows, a)
    requires g.pool == h.pool && HInv(g, at.limit) && |g.bins| == ARR_LEN && Mirrors(v, at.heads, g)
    ensures Stands(v, at, g) && OthersKept(w, v, at.limit, h, a)
  {
    hide HInv, Mirrors, Represents, Kept, OthersKept;
    assert |v.first| == |w.first| && |v.second| == |v.first| by {
      KeptSizes(w, v, at, h, g, a);
    }
    KeptForManager(w, v, at.heads, at.manHeads, h, at.limit, a);
    ManagerKept(w, v, at.bytes, at.spare, at.manHeads, h.pool, at.limit);
    KeptIsOthersKept(w, v, at.heads, at.limit, h, a);
  }

  lemma KeptSizes(w: Words, v: Words, at: Place, h: Heap, g: Heap, a: Addr)
    requires Kept(w, v, at.heads, h.rows, a) && |g.bins| == ARR_LEN && Mirrors(v, at.heads, g)
    ensures |v.first| == |w.first| && |v.second| == |v.first|
  {
    hide HeadersMatch, BinRings;
  }

  lemma MarkUsedStands(w: Words, at: Place, h: Heap, a: Addr)
    requires Stands(w, at, h) && FreeAt(h.rows, a)
    ensures var u := Unit(a);
            && InMemory(w, u) && InMemory(w, u + 1) && InMemory(w, w.first[u + 1]) && InMemory(w, w.second[u + 1])
            && w.first[u + 1] != u + 1 && 1 <= At(h.rows, a).size <= ARR_LEN
    ensures var v := UseWords(w, Unit(a));
            Stands(v, at, MarkUsed(h, a)) && OthersKept(w, v, at.limit, h, a)
  {
    hide HInv, Mirrors, Represents, Kept, OthersKept;
    UseMirrors(w, at.heads, h, at.limit, a);
    MarkUsedKeeps(h, at.limit, a);
    StepStands(w, UseWords(w, Unit(a)), at, h, MarkUsed(h, a), a);
  }

  /** The size word of a block is its payload in bytes plus the flag. */
  lemma SizeOf(w: Words, at: Place, h: Heap, a: Addr)
    requires Stands(w, at, h) && HeaderAt(h.rows, a)
    ensures InMemory(w, Unit(a)) && HeaderIs(w, a, At(h.rows, a))
    ensures var x := w.second[Unit(a)];
            x / BLOCK_SIZE == At(h.rows, a).size && PayloadUnits(x) == At(h.rows, a).size
            && (x % 2 == 1 <==> At(h.rows, a).used)
  {
    hide Ring, HInv, Represents, BinRings;
    assert HeaderIs(w, a, At(h.rows, a));
    SizeWordParts(At(h.rows, a).size, if At(h.rows, a).used then 1 else 0);
  }

  lemma SizeWordParts(s: nat, flag: nat)
    requires flag <= 1
    ensures var x := BLOCK_SIZE * s + flag; x / BLOCK_SIZE == s && PayloadUnits(x) == s && x % 2 == flag
  {
    InEights(s, flag);
    InEights(s, 0);
    InFours(2 * s, flag);
    InTwos(4 * s, flag);
  }

  lemma InEights(q: nat, r: nat)
    requires r < 8
    ensures (8 * q + r) / 8 == q
  {
  }

  lemma InFours(q: nat, r: nat)
    requires r < 4
    ensures (4 * q + r) % 4 == r
  {
  }

  lemma InTwos(q: nat, r: nat)
    requires r < 2
    ensures (2 * q + r) % 2 == r
  {
  }

  lemma MarkFreeStands(w: Words, at: Place, h: Heap, a: Addr)
    requires Stands(w, at, h) && LiveAt(h.rows, a)
    requires At(h.rows, a).size <= ARR_LEN && HInv(MarkFree(h, a), at.limit)
    ensures var u, head := Unit(a), at.heads + At(h.rows, a).size - 1;
            && InMemory(w, u) && InMemory(w, u + 1) && InMemory(w, head) && InMemory(w, w.second[head]) && head != u + 1
    ensures var v := UnuseWords(w, at.heads + At(h.rows, a).size - 1, Unit(a));
            Stands(v, at, MarkFree(h, a)) && OthersKept(w, v, at.limit, h, a)
  {
    hide HInv, Mirrors, Represents, Kept, OthersKept;
    UnuseMirrors(w, at.heads, h, at.limit, a);
    StepStands(w, UnuseWords(w, at.heads + At(h.rows, a).size - 1, Unit(a)), at, h, MarkFree(h, a), a);
  }

  lemma MergeKept(w: Words, v: Words, heads: nat, h: Heap, limit: nat, a: Addr)
    requires HInv(h, limit) && UNITS * limit <= heads && LiveAt(h.rows, a) && LiveAt(h.rows, Addr(a.page, Next(h.rows[a.page], a.off)))
    requires var r := h.rows[a.page]; Next(r, Next(r, a.off)) in r
    requires |v.first| == |w.first| && |v.second| == |w.second|
    requires var r := h.rows[a.page];
             forall u :: u != Unit(a) && u != UNITS * a.page + Next(r, Next(r, a.off)) ==> SameAt(w, v, u)
    ensures Kept(w, v, heads, h.rows, a)
  {
    hide Binned, PagesApart, RowsInv;
    var r := h.rows[a.page];
    var c := Addr(a.page, Next(r, Next(r, a.off)));
    HeaderOnly(h, limit, a);
    HeaderOnly(h, limit, c);
    forall b, u | LiveAt(h.rows, b) && b != a && InPayload(h.rows, b, u) ensures SameAt(w, v, u) {
      PayloadsApart(h, limit, b, a, u);
      PayloadsApart(h, limit, b, c, u);
    }
  }

  lemma MergeStands(w: Words, at: Place, h: Heap, a: Addr)
    requires Stands(w, at, h) && LiveAt(h.rows, a)
    requires var n := Next(h.rows[a.page], a.off); LiveAt(h.rows, Addr(a.page, n))
    ensures var r := h.rows[a.page];
            && Next(r, Next(r, a.off)) in r
            && InMemory(w, Unit(a)) && InMemory(w, UNITS * a.page + Next(r, a.off))
            && InMemory(w, UNITS * a.page + Next(r, Next(r, a.off)))
    ensures var r := h.rows[a.page];
            var v := MergeWords(w, Unit(a), UNITS * a.page + Next(r, a.off), UNITS * a.page + Next(r, Next(r, a.off)));
            Stands(v, at, WithRow(h, a.page, Merge(r, a.off))) && OthersKept(w, v, at.limit, h, a)
  {
    hide Binned, PagesApart, RowsInv, Mirrors, Represents, Kept, OthersKept;
    var r := h.rows[a.page];
    var b := Addr(a.page, Next(r, a.off));
    UsedBlockBounds(h, at.limit, a);
    UsedBlockBounds(h, at.limit, b);
    RowOf(h, at.limit, a.page);
    MergeKeeps(r, a.off);
    WithRowKeeps(h, at.limit, a.page, Merge(r, a.off));
    MergeMirrors(w, at.heads, h, at.limit, a.page, a.off);
    var v := MergeWords(w, Unit(a), Unit(b), UNITS * a.page + Next(r, b.off));
    MergeKept(w, v, at.heads, h, at.limit, a);
    StepStands(w, v, at, h, WithRow(h, a.page, Merge(r, a.off)), a);
  }

  lemma RowOf(h: Heap, limit: nat, page: nat)
    requires HInv(h, limit) && page in h.rows
    ensures RowInv(h.rows[page])
  {
  }

  lemma SplitStands(w: Words, at: Place, h: Heap, a: Addr, n: nat)
    requires Stands(w, at, h) && LiveAt(h.rows, a) && 1 <= n && n + 2 <= At(h.rows, a).size
    ensures var r := h.rows[a.page];
            && Next(r, a.off) in r && a.off + 1 + n !in r
            && InMemory(w, Unit(a)) && InMemory(w, Unit(a) + 1 + n) && InMemory(w, UNITS * a.page + Next(r, a.off))
    ensures var r := h.rows[a.page];
            var v := SplitWords(w, Unit(a), Unit(a) + 1 + n, UNITS * a.page + Next(r, a.off),
                                BLOCK_SIZE * n + 1, BLOCK_SIZE * (r[a.off].size - n - 1) + 1);
            Stands(v, at, WithRow(h, a.page, Split(r, a.off, n))) && OthersKept(w, v, at.limit, h, a)
  {
    hide HInv, Mirrors, Represents, Kept, OthersKept;
    CutRow(h, at.limit, a, n);
    SplitMirrors(w, at.heads, h, at.limit, a, n);
    var r := h.rows[a.page];
    var v := SplitWords(w, Unit(a), Unit(a) + 1 + n, UNITS * a.page + Next(r, a.off),
                        BLOCK_SIZE * n + 1, BLOCK_SIZE * (r[a.off].size - n - 1) + 1);
    SplitKept(w, v, at.heads, h, at.limit, a, n);
    StepStands(w, v, at, h, WithRow(h, a.page, Split(r, a.off, n)), a);
  }

  // ----- what free reads before it decides -----

  lemma FreeReads(w: Words, at: Place, h: Heap, a: Addr)
    requires Stands(w, at, h) && LiveAt(h.rows, a)
    ensures var r := h.rows[a.page];
            var n := Next(r, a.off);
            && n in r && InMemory(w, Unit(a)) && InMemory(w, UNITS * a.page + n)
            && (w.first[Unit(a)] == NULL <==> r[a.off].prev == NULL)
            && (w.second[UNITS * a.page + n] == 1 <==> r[n].size == 0 && r[n].used)
            && (w.second[UNITS * a.page + n] % 2 == 0 <==> NextFree(h, a))
            && Unit(a) / UNITS == a.page
            && (r[a.off].prev != NULL ==>
                  && 0 <= r[a.off].prev && r[a.off].prev in r
                  && w.first[Unit(a)] == UNITS * a.page + r[a.off].prev && InMemory(w, w.first[Unit(a)])
                  && (w.second[w.first[Unit(a)]] % 2 == 0 <==> PrevFree(h, a)))
  {
    hide Ring, Represents;
    var r := h.rows[a.page];
    UsedBlockBounds(h, at.limit, a);
    var c := Addr(a.page, Next(r, a.off));
    SizeOf(w, at, h, a);
    SizeOf(w, at, h, c);
    UnitsInPage(h, at.limit, a);
    if r[a.off].prev != NULL {
      SizeOf(w, at, h, Addr(a.page, r[a.off].prev));
    }
  }

  // ----- opening and dropping pages -----

  /** After the page manager wrote only where it may, the heap still stands over its new pool. */
  lemma ManagerMoved(w: Words, v: Words, at: Place, now: Place, h: Heap, g: Heap, a: Addr)
    requires Stands(w, at, h)
    requires now.limit == at.limit && now.manHeads == at.manHeads && now.heads == at.heads
    requires |g.pool| == TOTAL_LEVEL && Represents(v, now.bytes, now.spare, now.manHeads, g.pool, at.limit)
    requires SameOutside(w, v, at.manHeads, h.pool) || SameOutside(w, v, at.manHeads, g.pool)
    requires HInv(g, at.limit) && g.bins == h.bins
    requires forall x :: x in g.rows ==> x in h.rows && g.rows[x] == h.rows[x]
    requires SamePages(h, g) && forall b :: LiveAt(h.rows, b) && b != a ==> b.page in g.rows
    ensures Stands(v, now, g) && OthersKept(w, v, at.limit, h, a)
  {
    hide HInv, Mirrors, Represents;
    DropMirrors(w, at.heads, h, g);
    forall u | (at.heads <= u < at.heads + ARR_LEN) || (0 <= u && u / UNITS in g.rows) ensures SameAt(w, v, u) {
      NotOwned(at, h, g, u);
    }
    MemorySizes(w, v, at, h);
    ForeignChange(w, v, at.heads, g, at.limit);
    forall b, u | LiveAt(h.rows, b) && b != a && InPayload(h.rows, b, u) ensures SameAt(w, v, u) {
      assert b.page in g.rows;
      PayloadsApart(h, at.limit, b, b, u);
      assert u / UNITS == b.page;
    }
    forall u | Foreign(h, at.limit, u) ensures SameAt(w, v, u) {
      ForeignNotOwned(at, h, g, u);
    }
  }

  lemma MemorySizes(w: Words, v: Words, at: Place, h: Heap)
    requires Stands(w, at, h)
    requires |v.first| == |w.first| && |v.second| == |w.second|
    ensures |v.first| == |v.second|
  {
    hide HInv, Represents, HeadersMatch, BinRings;
  }

  /** Bin heads and pages still held belong to the page manager neither before nor after. */
  lemma NotOwned(at: Place, h: Heap, g: Heap, u: int)
    requires UNITS * at.limit <= at.manHeads && at.manHeads + TOTAL_LEVEL <= at.heads
    requires |h.pool| == |g.pool| == TOTAL_LEVEL && HInv(h, at.limit) && HInv(g, at.limit)
    requires forall x :: x in g.rows ==> x in h.rows
    requires (at.heads <= u < at.heads + ARR_LEN) || (0 <= u && u / UNITS in g.rows)
    ensures !Owned(at.manHeads, h.pool, u) && !Owned(at.manHeads, g.pool, u)
  {
    hide RowsInv, Binned, Inv;
    if Owned(at.manHeads, h.pool, u) && !(at.manHeads <= u < at.manHeads + TOTAL_LEVEL) {
      FreeBelowLimit(h.pool, at.limit, u / UNITS);
    }
    if Owned(at.manHeads, g.pool, u) && !(at.manHeads <= u < at.manHeads + TOTAL_LEVEL) {
      FreeBelowLimit(g.pool, at.limit, u / UNITS);
    }
  }

  lemma ForeignNotOwned(at: Place, h: Heap, g: Heap, u: int)
    requires UNITS * at.limit <= at.manHeads
    requires |h.pool| == |g.pool| == TOTAL_LEVEL && SamePages(h, g) && Foreign(h, at.limit, u)
    ensures !Owned(at.manHeads, h.pool, u) && !Owned(at.manHeads, g.pool, u)
  {
  }

  lemma DropStands(w: Words, v: Words, at: Place, now: Place, h: Heap, a: Addr)
    requires Stands(w, at, h) && LiveAt(h.rows, a) && FillsPage(h, a)
    requires Free(h.pool, a.page, 0).Some?
    requires now.limit == at.limit && now.manHeads == at.manHeads && now.heads == at.heads
    requires var pool := Free(h.pool, a.page, 0).value;
             Represents(v, now.bytes, now.spare, now.manHeads, pool, at.limit) && SameOutside(w, v, at.manHeads, pool)
    ensures Stands(v, now, FreeBlk(h, at.limit, a)) && OthersKept(w, v, at.limit, h, a)
  {
    hide Stands, HInv, Mirrors, Represents, SameOutside, OthersKept;
    StandsHas(w, at, h);
    FillsPageMeans(h, at.limit, a);
    DropKeeps(h, at.limit, a);
    FreeMeans(h, at.limit, a);
    var g := FreeBlk(h, at.limit, a);
    forall b | LiveAt(h.rows, b) && b != a ensures b.page in g.rows {
      assert b in Live(h.rows) - {a};
      assert b in Live(g.rows);
    }
    ManagerMoved(w, v, at, now, h, g, a);
  }

  lemma StandsHas(w: Words, at: Place, h: Heap)
    requires Stands(w, at, h)
    ensures |h.bins| == ARR_LEN && |h.pool| == TOTAL_LEVEL && HInv(h, at.limit)
    ensures |w.first| == |w.second|
  {
    hide HInv, Represents, HeadersMatch, BinRings;
  }

  /** The page manager has just handed out page p; the heap has not changed yet. */
  ghost predicate PageHandedOut(w: Words, v: Words, at: Place, now: Place, h: Heap, p: nat, pool: Pool) {
    && Stands(w, at, h)
    && now.limit == at.limit && now.manHeads == at.manHeads && now.heads == at.heads
    && Alloc(h.pool, 0) == (Some(p), Some(pool))
    && |pool| == TOTAL_LEVEL && Represents(v, now.bytes, now.spare, now.manHeads, pool, at.limit)
    && SameOutside(w, v, at.manHeads, h.pool)
  }

  /** The heap with page p laid out, both blocks still marked used. */
  ghost function Opened(h: Heap, p: nat, pool: Pool, n: nat): Heap
    requires n <= MAX_REQUEST
  {
    Heap(h.rows[p := NewRow(n)], h.bins, pool)
  }

  lemma OpenedInv(h: Heap, limit: nat, p: nat, pool: Pool, n: nat)
    requires HInv(h, limit) && 1 <= n <= MAX_REQUEST && Alloc(h.pool, 0) == (Some(p), Some(pool))
    ensures Inv(pool, limit) && p < limit && p !in h.rows && IsFree(h.pool, p) && !IsFree(pool, p)
    ensures forall x: nat :: IsFree(pool, x) ==> IsFree(h.pool, x)
    ensures HInv(Opened(h, p, pool, n), limit) && |h.bins| == ARR_LEN && |pool| == TOTAL_LEVEL
    ensures var b := Addr(p, 1 + n);
            && LiveAt(Opened(h, p, pool, n).rows, b) && At(Opened(h, p, pool, n).rows, b).size == UNITS - 3 - n
            && HInv(MarkFree(Opened(h, p, pool, n), b), limit)
  {
    AllocTakesBlock(h.pool, limit, 0);
    assert IsFree(h.pool, p);
    PageTaken(h, limit, p, pool, NewRow(n));
    NewRowKeeps(n);
    OpenRow(h, limit, p, pool, n);
    MarkFreeKeeps(Opened(h, p, pool, n), limit, Addr(p, 1 + n));
  }

  lemma OpenWordsStand(w: Words, v: Words, at: Place, now: Place, h: Heap, p: nat, pool: Pool, n: nat)
    requires PageHandedOut(w, v, at, now, h, p, pool) && 1 <= n <= MAX_REQUEST
    ensures InMemory(v, UNITS * p) && InMemory(v, UNITS * p + LAST)
    ensures var u := UNITS * p;
            var x := SetSecond(OpenWords(v, u, n), u + 1 + n, BLOCK_SIZE * (UNITS - 3 - n) + 1);
            && Stands(x, now, Opened(h, p, pool, n))
            && |x.first| == |w.first| && |x.second| == |w.second|
            && forall y :: !Owned(at.manHeads, h.pool, y) ==> SameAt(w, x, y)
  {
    hide HInv, Mirrors, Represents;
    StandsHas(w, at, h);
    OpenedInv(h, at.limit, p, pool, n);
    forall y | (at.heads <= y < at.heads + ARR_LEN) || (0 <= y && y / UNITS in h.rows) ensures SameAt(w, v, y) {
      NotOwned(at, h, h, y);
    }
    MemorySizes(w, v, at, h);
    ForeignChange(w, v, at.heads, h, at.limit);
    OpenMirrors(v, at.heads, h, at.limit, p, pool, n);
    var u := UNITS * p;
    var x := SetSecond(OpenWords(v, u, n), u + 1 + n, BLOCK_SIZE * (UNITS - 3 - n) + 1);
    forall y | !(u <= y < u + UNITS) ensures SameAt(v, x, y) {
      assert SameAt(v, OpenWords(v, u, n), y);
    }
    InPage(p);
    forall y | Owned(now.manHeads, pool, y) ensures SameAt(v, x, y) {
    }
    ManagerKept(v, x, now.bytes, now.spare, now.manHeads, pool, at.limit);
    InPage(p);
    forall y | !Owned(at.manHeads, h.pool, y) ensures SameAt(w, x, y) {
      assert SameAt(w, v, y);
    }
  }

  lemma InPage(p: nat)
    ensures forall y :: UNITS * p <= y < UNITS * p + UNITS ==> y / UNITS == p
  {
  }

  /** MarkFree can be run on the rest of the fresh page. */
  ghost predicate RestReady(x: Words, heads: nat, u: int, n: nat) {
    var rest, head := u + 1 + n, heads + UNITS - 4 - n;
    && head != rest + 1 && InMemory(x, rest) && InMemory(x, rest + 1) && InMemory(x, head) && InMemory(x, x.second[head])
    && x.second[rest] == BLOCK_SIZE * (UNITS - 3 - n)
  }

  lemma OpenStands(w: Words, v: Words, at: Place, now: Place, h: Heap, p: nat, pool: Pool, n: nat) returns (x: Words, z: Words)
    requires PageHandedOut(w, v, at, now, h, p, pool) && 1 <= n <= MAX_REQUEST && n <= UNITS - 4
    ensures InMemory(v, UNITS * p) && InMemory(v, UNITS * p + LAST) && x == OpenWords(v, UNITS * p, n)
    ensures RestReady(x, at.heads, UNITS * p, n) && z == UnuseWords(x, at.heads + UNITS - 4 - n, UNITS * p + 1 + n)
    ensures |h.bins| == ARR_LEN && |h.pool| == TOTAL_LEVEL
    ensures Stands(z, now, Open(h, p, pool, n)) && OthersKept(w, z, at.limit, h, Addr(p, 0))
  {
    hide HInv, Mirrors, Represents, OthersKept, Stands, SameOutside, OpenWords, UnuseWords;
    StandsHas(w, at, h);
    OpenedInv(h, at.limit, p, pool, n);
    OpenWordsStand(w, v, at, now, h, p, pool, n);
    x := OpenWords(v, UNITS * p, n);
    RestIsEven(v, UNITS * p, n);
    HeadsAbove(w, at, h);
    var y := SetSecond(x, UNITS * p + 1 + n, BLOCK_SIZE * (UNITS - 3 - n) + 1);
    z := RestBinned(x, y, now, Opened(h, p, pool, n), Addr(p, 1 + n), n);
    OpenOthersKept(w, y, z, at, h, Opened(h, p, pool, n), p, n);
  }

  /** Binning the rest works alike whether its flag was written set or clear. */
  lemma RestBinned(x: Words, y: Words, now: Place, g: Heap, b: Addr, n: nat) returns (z: Words)
    requires Stands(y, now, g) && b.off == 1 + n && n <= MAX_REQUEST && |g.bins| == ARR_LEN && |g.pool| == TOTAL_LEVEL
    requires LiveAt(g.rows, b) && At(g.rows, b).size == UNITS - 3 - n && HInv(MarkFree(g, b), now.limit)
    requires InMemory(x, Unit(b)) && x.second[Unit(b)] == BLOCK_SIZE * (UNITS - 3 - n)
    requires y == SetSecond(x, Unit(b), BLOCK_SIZE * (UNITS - 3 - n) + 1)
    ensures RestReady(x, now.heads, UNITS * b.page, n) && z == UnuseWords(x, now.heads + UNITS - 4 - n, Unit(b))
    ensures Stands(z, now, MarkFree(g, b)) && OthersKept(y, z, now.limit, g, b)
  {
    hide HInv, Mirrors, Represents, OthersKept, Stands, UnuseWords;
    MarkFreeStands(y, now, g, b);
    HeadsAbove(y, now, g);
    StandsHas(y, now, g);
    UnitsInPage(g, now.limit, b);
    var head := now.heads + UNITS - 4 - n;
    assert y.second[head] == x.second[head];
    UnuseIgnoresFlag(x, head, Unit(b), BLOCK_SIZE * (UNITS - 3 - n));
    z := UnuseWords(x, head, Unit(b));
  }

  lemma RestIsEven(v: Words, u: int, n: nat)
    requires 1 <= n <= MAX_REQUEST && InMemory(v, u) && InMemory(v, u + LAST)
    ensures var x := OpenWords(v, u, n);
            |x.first| == |v.first| && |x.second| == |v.second| && x.second[u + 1 + n] == BLOCK_SIZE * (UNITS - 3 - n)
  {
  }

  lemma HeadsAbove(w: Words, at: Place, h: Heap)
    requires Stands(w, at, h)
    ensures UNITS * at.limit <= at.manHeads && at.manHeads + TOTAL_LEVEL <= at.heads && at.heads + ARR_LEN <= |w.first|
  {
    hide HInv, Represents, Mirrors;
  }

  lemma OpenOthersKept(w: Words, y: Words, z: Words, at: Place, h: Heap, g: Heap, p: nat, n: nat)
    requires UNITS * at.limit <= at.manHeads && |h.pool| == |g.pool| == TOTAL_LEVEL && HInv(h, at.limit)
    requires 1 <= n <= MAX_REQUEST && p < at.limit && p !in h.rows && g.rows == h.rows[p := NewRow(n)] && IsFree(h.pool, p)
    requires forall x: nat :: IsFree(g.pool, x) ==> IsFree(h.pool, x)
    requires |y.first| == |w.first| && |y.second| == |w.second|
    requires forall u :: !Owned(at.manHeads, h.pool, u) ==> SameAt(w, y, u)
    requires OthersKept(y, z, at.limit, g, Addr(p, 1 + n))
    ensures OthersKept(w, z, at.limit, h, Addr(p, 0))
  {
    forall b, u | LiveAt(h.rows, b) && b != Addr(p, 0) && InPayload(h.rows, b, u) ensures SameAt(w, z, u) {
      assert LiveAt(g.rows, b) && InPayload(g.rows, b, u) && b.page != p;
      PayloadsApart(h, at.limit, b, b, u);
      BelowLimit(h, at.limit, b, u);
      assert u / UNITS == b.page && !Owned(at.manHeads, h.pool, u);
      assert SameAt(w, y, u) && SameAt(y, z, u);
    }
    forall u | Foreign(h, at.limit, u) ensures SameAt(w, z, u) {
      assert Foreign(g, at.limit, u) && !Owned(at.manHeads, h.pool, u);
      assert SameAt(w, y, u) && SameAt(y, z, u);
    }
  }

  /** Marking a free block used and then merging at o spares every other live block. */
  lemma JoinOthers(w: Words, v: Words, x: Words, limit: nat, h: Heap, f: Addr, o: Addr)
    requires |h.pool| == TOTAL_LEVEL && |w.first| == |w.second|
    requires FreeAt(h.rows, f) && 1 <= At(h.rows, f).size <= |h.bins|
    requires OthersKept(w, v, limit, h, f) && OthersKept(v, x, limit, MarkUsed(h, f), o)
    ensures OthersKept(w, x, limit, h, o)
  {
    var g := MarkUsed(h, f);
    OnlyAt(h.rows, g.rows, f);
    forall b, u | LiveAt(h.rows, b) && b != o && InPayload(h.rows, b, u) ensures SameAt(w, x, u) {
      assert LiveAt(g.rows, b) && InPayload(g.rows, b, u);
      assert SameAt(w, v, u) && SameAt(v, x, u);
    }
    forall u | Foreign(h, limit, u) ensures SameAt(w, x, u) {
      assert Foreign(g, limit, u);
      assert SameAt(w, v, u) && SameAt(v, x, u);
    }
  }

  /** A block that is not live may be named or not. */
  lemma OthersKeptAnyway(w: Words, v: Words, limit: nat, h: Heap, f: Addr, a: Addr)
    requires |h.pool| == TOTAL_LEVEL && OthersKept(w, v, limit, h, f) && !LiveAt(h.rows, f)
    ensures OthersKept(w, v, limit, h, a)
  {
  }

  /** No live payload and no foreign page was written. */
  ghost predicate LiveKept(w: Words, v: Words, limit: nat, h: Heap)
    requires |h.pool| == TOTAL_LEVEL
  {
    && |v.first| == |w.first| && |v.second| == |w.second|
    && (forall b, u :: LiveAt(h.rows, b) && InPayload(h.rows, b, u) ==> SameAt(w, v, u))
    && (forall u :: Foreign(h, limit, u) ==> SameAt(w, v, u))
  }

  lemma OthersAreAll(w: Words, v: Words, limit: nat, h: Heap, a: Addr)
    requires |h.pool| == TOTAL_LEVEL && OthersKept(w, v, limit, h, a) && !LiveAt(h.rows, a)
    ensures LiveKept(w, v, limit, h)
  {
  }

  /** A page request that fails still writes only where the page manager may. */
  lemma FailedRequestStands(w: Words, v: Words, at: Place, now: Place, h: Heap)
    requires Stands(w, at, h)
    requires now.limit == at.limit && now.manHeads == at.manHeads && now.heads == at.heads
    requires Represents(v, now.bytes, now.spare, now.manHeads, h.pool, at.limit) && SameOutside(w, v, at.manHeads, h.pool)
    ensures Stands(v, now, h) && LiveKept(w, v, at.limit, h)
  {
    hide HInv, Mirrors, Represents, OthersKept;
    StandsHas(w, at, h);
    var a := Addr(0, LAST);
    if LiveAt(h.rows, a) {
      UsedBlockBounds(h, at.limit, a);
    }
    ManagerMoved(w, v, at, now, h, h, a);
    OthersAreAll(w, v, at.limit, h, a);
  }

  /** What malloc reads of a bin. */
  lemma BinReads(w: Words, at: Place, h: Heap, id: nat)
    requires Stands(w, at, h) && id < ARR_LEN
    ensures var head := at.heads + id;
            && InMemory(w, head) && (w.first[head] == head <==> h.bins[id] == [])
            && Ring(w, head, Image(Payload, h.bins[id]))
            && (h.bins[id] != [] ==> w.second[head] == Payload(h.bins[id][0]) && h.bins[id][0] in h.bins[id])
  {
    hide Represents, HInv;
    HeadInMemory(w, at.heads, h, id);
  }

  /** Splitting and binning the rest spares every live block but the one cut. */
  lemma CutOthers(w: Words, v: Words, x: Words, y: Words, limit: nat, h: Heap, a: Addr, n: nat)
    requires HInv(h, limit) && FreeAt(h.rows, a) && 1 <= At(h.rows, a).size <= |h.bins| && |w.first| == |w.second|
    requires |h.pool| == TOTAL_LEVEL && 1 <= n && n + 2 <= At(h.rows, a).size
    requires var g := MarkUsed(h, a); Next(g.rows[a.page], a.off) in g.rows[a.page] && a.off + 1 + n !in g.rows[a.page]
    requires OthersKept(w, v, limit, h, a) && OthersKept(v, x, limit, MarkUsed(h, a), a)
    requires var g := MarkUsed(h, a);
             OthersKept(x, y, limit, WithRow(g, a.page, Split(g.rows[a.page], a.off, n)), Addr(a.page, a.off + 1 + n))
    ensures LiveKept(w, y, limit, h)
  {
    hide HInv;
    var g := MarkUsed(h, a);
    var s := WithRow(g, a.page, Split(g.rows[a.page], a.off, n));
    OnlyAt(h.rows, g.rows, a);
    forall b, u | LiveAt(h.rows, b) && InPayload(h.rows, b, u) ensures SameAt(w, y, u) {
      assert LiveAt(g.rows, b) && InPayload(g.rows, b, u) && b != a;
      assert LiveAt(s.rows, b) && InPayload(s.rows, b, u) && b != Addr(a.page, a.off + 1 + n);
      assert SameAt(w, v, u) && SameAt(v, x, u) && SameAt(x, y, u);
    }
    forall u | Foreign(h, limit, u) ensures SameAt(w, y, u) {
      assert Foreign(g, limit, u) && Foreign(s, limit, u);
      assert SameAt(w, v, u) && SameAt(v, x, u) && SameAt(x, y, u);
    }
  }
}
