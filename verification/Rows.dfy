/** One page of the boundary-tag allocator: a row of blocks, closed by a protector. */
module Rows {
  // A unit is 8 bytes, two words.  A block is a header unit and its payload; the protector is a
  // header alone in the last unit of the page.

  import opened Pages

  const LAST: nat := UNITS - 1

  const NULL: int := -1

  /** prev is the offset of the previous block, NULL for the first block of the page. */
  datatype Header = Header(prev: int, size: nat, used: bool)

  /** The headers of a page by offset. */
  type Row = map<nat, Header>

  function Next(r: Row, o: nat): nat
    requires o in r
  {
    o + 1 + r[o].size
  }

  /** The header at o fits its neighbours: next and previous are inverse to each other, the
      first block has no predecessor, the protector closes the page. */
  ghost predicate Placed(r: Row, o: nat)
    requires o in r
  {
    && o <= LAST
    && (if o == LAST then r[o].size == 0 && r[o].used
        else 1 <= r[o].size && Next(r, o) <= LAST && Next(r, o) in r && r[Next(r, o)].prev == o)
    && (if o == 0 then r[o].prev == NULL
        else 0 <= r[o].prev < o && r[o].prev in r && Next(r, r[o].prev) == o)
  }

  /** Blocks do not overlap. */
  ghost predicate Apart(r: Row, o: nat, p: nat)
    requires o in r && p in r
  {
    o < p ==> Next(r, o) <= p
  }

  /** An exact row of blocks from the start of the page to the protector. */
  ghost predicate Tiling(r: Row) {
    && 0 in r && LAST in r
    && (forall o {:trigger Placed(r, o)} :: o in r ==> Placed(r, o))
    && (forall o, p {:trigger Apart(r, o, p)} :: o in r && p in r ==> Apart(r, o, p))
  }

  /** A free block has a used successor, and is never all of the page. */
  ghost predicate Calm(r: Row, o: nat)
    requires o in r
  {
    !r[o].used ==>
      && o < LAST && Next(r, o) in r && r[Next(r, o)].used
      && (o == 0 ==> Next(r, o) != LAST)
  }

  ghost predicate RowInv(r: Row) {
    && Tiling(r)
    && forall o {:trigger Calm(r, o)} :: o in r ==> Calm(r, o)
  }

  // ----- steps -----

  function Put(r: Row, o: nat, h: Header): Row {
    r[o := h]
  }

  function SetUsed(r: Row, o: nat, used: bool): Row
    requires o in r
  {
    Put(r, o, r[o].(used := used))
  }

  /** Joins the used block at o with its used successor. */
  function Merge(r: Row, o: nat): Row
    requires o in r && Next(r, o) in r && Next(r, Next(r, o)) in r
  {
    var p := Next(r, o);
    var q := Next(r, p);
    (r - {p})[o := Header(r[o].prev, r[o].size + r[p].size + 1, true)][q := r[q].(prev := o)]
  }

  /** Cuts the used block at o after n units. */
  function Split(r: Row, o: nat, n: nat): Row
    requires o in r && Next(r, o) in r && n + 1 <= r[o].size
  {
    var p := o + 1 + n;
    var q := Next(r, o);
    r[o := Header(r[o].prev, n, true)][p := Header(o, r[o].size - n - 1, true)][q := r[q].(prev := p)]
  }

  /** A fresh page: a block of n units, the rest, the protector.  For the largest request on
      this path the rest has no room: its header is where the protector belongs, the size put
      there is one header short of zero, and with it the next block is the same header again,
      so that the protector is written over it, as its own predecessor. */
  function NewRow(n: nat): Row
    requires n <= UNITS - 2
  {
    if n == UNITS - 2 then map[0 := Header(NULL, n, true), LAST := Header(LAST, 0, true)]
    else map[0 := Header(NULL, n, true), 1 + n := Header(0, UNITS - 3 - n, true), LAST := Header(1 + n, 0, true)]
  }

  // ----- what each step keeps -----

  lemma FlagKeepsTiling(r: Row, o: nat, used: bool)
    requires Tiling(r) && o in r && o != LAST
    ensures Tiling(SetUsed(r, o, used))
  {
    var s := SetUsed(r, o, used);
    forall x | x in s ensures Placed(s, x) {
      assert Placed(r, x);
    }
    forall x, y | x in s && y in s ensures Apart(s, x, y) {
      assert Apart(r, x, y);
    }
  }

  lemma SetUsedKeeps(r: Row, o: nat)
    requires RowInv(r) && o in r && !r[o].used
    ensures RowInv(SetUsed(r, o, true))
  {
    assert Placed(r, o);
    FlagKeepsTiling(r, o, true);
    forall x | x in r ensures Calm(SetUsed(r, o, true), x) {
      assert Calm(r, x);
    }
  }

  lemma SetFreeKeeps(r: Row, o: nat)
    requires RowInv(r) && o in r && o != LAST
    requires Next(r, o) in r && r[Next(r, o)].used
    requires r[o].prev != NULL ==> r[o].prev in r && r[r[o].prev].used
    requires r[o].prev == NULL ==> Next(r, o) != LAST
    ensures RowInv(SetUsed(r, o, false))
  {
    assert Placed(r, o);
    FlagKeepsTiling(r, o, false);
    forall x | x in r ensures Calm(SetUsed(r, o, false), x) {
      assert Calm(r, x) && Placed(r, x);
    }
  }

  lemma MergePlaced(r: Row, o: nat)
    requires Tiling(r) && o in r && o != LAST
    requires Next(r, o) in r && Next(r, o) != LAST
    ensures Next(r, Next(r, o)) in r
    ensures forall x :: x in Merge(r, o) ==> Placed(Merge(r, o), x)
  {
    var p := Next(r, o);
    assert Placed(r, o) && Placed(r, p);
    forall x | x in Merge(r, o) ensures Placed(Merge(r, o), x) {
      assert Placed(r, x);
    }
  }

  lemma MergeApart(r: Row, o: nat, x: nat, y: nat)
    requires Tiling(r) && o in r && Next(r, o) in r && Next(r, Next(r, o)) in r
    requires x in Merge(r, o) && y in Merge(r, o)
    ensures Apart(Merge(r, o), x, y)
  {
    hide Placed;
    assert Apart(r, x, y) && Apart(r, Next(r, o), y);
  }

  lemma MergeKeeps(r: Row, o: nat)
    requires RowInv(r) && o in r && o != LAST && r[o].used
    requires Next(r, o) in r && Next(r, o) != LAST && r[Next(r, o)].used
    ensures Next(r, Next(r, o)) in r && RowInv(Merge(r, o))
  {
    hide Apart;
    MergePlaced(r, o);
    MergeCalm(r, o);
    var s := Merge(r, o);
    forall x, y | x in s && y in s ensures Apart(s, x, y) {
      MergeApart(r, o, x, y);
    }
    assert Placed(r, o) && Placed(r, Next(r, o));
  }

  lemma MergeCalm(r: Row, o: nat)
    requires RowInv(r) && o in r && o != LAST && r[o].used
    requires Next(r, o) in r && Next(r, o) != LAST && r[Next(r, o)].used
    ensures Next(r, Next(r, o)) in r
    ensures forall x :: x in Merge(r, o) ==> Calm(Merge(r, o), x)
  {
    hide Apart;
    assert Placed(r, o) && Placed(r, Next(r, o));
    forall x | x in Merge(r, o) ensures Calm(Merge(r, o), x) {
      assert Calm(r, x) && Placed(r, x);
    }
  }

  lemma SplitPlaced(r: Row, o: nat, n: nat)
    requires Tiling(r) && o in r && 1 <= n && n + 2 <= r[o].size && o + 1 + n !in r
    ensures Next(r, o) in r
    ensures forall x :: x in Split(r, o, n) ==> Placed(Split(r, o, n), x)
  {
    assert Placed(r, o);
    forall x | x in Split(r, o, n) ensures Placed(Split(r, o, n), x) {
      if x in r {
        assert Placed(r, x);
      }
    }
  }

  lemma SplitApart(r: Row, o: nat, n: nat, x: nat, y: nat)
    requires Tiling(r) && o in r && Next(r, o) in r && n + 2 <= r[o].size && o + 1 + n !in r
    requires x in Split(r, o, n) && y in Split(r, o, n)
    ensures Apart(Split(r, o, n), x, y)
  {
    hide Placed;
    if x in r && y in r {
      assert Apart(r, x, y);
    } else if y in r {
      assert Apart(r, o, y);
    } else if x in r {
      assert Apart(r, x, o) && Apart(r, o, x);
    }
  }

  lemma SplitKeeps(r: Row, o: nat, n: nat)
    requires RowInv(r) && o in r && r[o].used && 1 <= n && n + 2 <= r[o].size
    ensures Next(r, o) in r && o + 1 + n !in r && RowInv(Split(r, o, n))
  {
    var p := o + 1 + n;
    assert p in r ==> Apart(r, o, p);
    SplitPlaced(r, o, n);
    var s := Split(r, o, n);
    forall x, y | x in s && y in s ensures Apart(s, x, y) {
      SplitApart(r, o, n, x, y);
    }
    SplitCalm(r, o, n);
  }

  lemma SplitCalm(r: Row, o: nat, n: nat)
    requires RowInv(r) && o in r && r[o].used && 1 <= n && n + 2 <= r[o].size && o + 1 + n !in r
    ensures Next(r, o) in r
    ensures forall x :: x in Split(r, o, n) ==> Calm(Split(r, o, n), x)
  {
    hide Apart;
    assert Placed(r, o);
    forall x | x in Split(r, o, n) ensures Calm(Split(r, o, n), x) {
      if x in r {
        assert Calm(r, x) && Placed(r, x);
      }
    }
  }

  /** A fresh page is in order exactly for requests up to 508 units, of the 510 that the source
      admits on this path. */
  lemma NewRowKeeps(n: nat)
    requires 1 <= n <= 510
    ensures RowInv(NewRow(n)) <==> n <= 508
  {
    var r := NewRow(n);
    if n <= UNITS - 4 {
      forall x | x in r ensures Placed(r, x) {}
    } else if n == UNITS - 3 {
      assert !Placed(r, 1 + n);
    } else {
      assert !Placed(r, LAST);
    }
  }

  // ----- tiling, spelled out -----

  /** Unit u of the page lies in the block at o: its header or its payload. */
  predicate Covers(r: Row, o: nat, u: nat)
    requires o in r
  {
    o <= u < Next(r, o)
  }

  /** Every unit of the page lies in exactly one block (the protector counts as one). */
  lemma {:induction false} ExactlyOneBlock(r: Row, u: nat) returns (o: nat)
    requires Tiling(r) && u <= LAST
    ensures o in r && Covers(r, o, u)
    ensures forall p :: p in r && Covers(r, p, u) ==> p == o
  {
    if u in r {
      o := u;
    } else {
      o := ExactlyOneBlock(r, u - 1);
      assert Placed(r, o);
    }
    forall p | p in r && Covers(r, p, u) ensures p == o {
      assert Apart(r, p, o) && Apart(r, o, p);
    }
  }

  /** A page in which nothing is used but the protector does not exist. */
  lemma SomeBlockUsed(r: Row) returns (o: nat)
    requires RowInv(r)
    ensures o in r && o < LAST && r[o].used && r[o].size > 0
  {
    assert Placed(r, 0) && Calm(r, 0);
    o := if r[0].used then 0 else Next(r, 0);
    assert Placed(r, o);
  }

  // ----- a page is determined by its used blocks -----

  /** The same used blocks, sizes included. */
  ghost predicate SameUsed(r: Row, s: Row) {
    && (forall o :: o in r && r[o].used ==> o in s && s[o].used && s[o].size == r[o].size)
    && (forall o :: o in s && s[o].used ==> o in r && r[o].used && r[o].size == s[o].size)
  }

  lemma FreeSizeDetermined(r: Row, s: Row, o: nat)
    requires RowInv(r) && RowInv(s) && SameUsed(r, s) && o in r && o in s && !r[o].used
    ensures !s[o].used && Next(s, o) <= Next(r, o)
  {
    assert Calm(r, o) && Placed(r, o);
    assert Next(r, o) in s;
    assert Apart(s, o, Next(r, o));
  }

  lemma {:induction false} RowDetermined(r: Row, s: Row, o: nat)
    requires RowInv(r) && RowInv(s) && SameUsed(r, s) && o in r
    ensures o in s && s[o] == r[o]
    decreases o
  {
    assert Placed(r, o);
    if o > 0 {
      var p := r[o].prev;
      RowDetermined(r, s, p);
      assert Placed(s, p);
    }
    assert Placed(s, o);
    if !r[o].used {
      FreeSizeDetermined(r, s, o);
      FreeSizeDetermined(s, r, o);
    }
  }

  /** Two pages with the same used blocks are equal, free blocks and links included. */
  lemma RowCanonical(r: Row, s: Row)
    requires RowInv(r) && RowInv(s) && SameUsed(r, s)
    ensures r == s
  {
    forall o ensures o in r <==> o in s {
      if o in r {
        RowDetermined(r, s, o);
      }
      if o in s {
        RowDetermined(s, r, o);
      }
    }
    forall o | o in r ensures r[o] == s[o] {
      RowDetermined(r, s, o);
    }
  }
}
