/** Circular doubly linked lists (include/data-struct/list.h) in raw memory. */
module Lists {
  // Memory is an array of 8-byte units of two machine words.  A list node occupies one unit
  // (previous, next); a block header occupies one unit as well (previous block, size).

  /** The contents of memory: the first and the second word of every unit. */
  datatype Words = Words(first: seq<int>, second: seq<int>)

  ghost predicate InMemory(w: Words, a: int) {
    0 <= a < |w.first| && |w.first| == |w.second|
  }

  /** The i-th node of a circular list; the head stands at both ends. */
  ghost function NodeAt(h: int, nodes: seq<int>, i: int): int {
    if 0 <= i < |nodes| then nodes[i] else h
  }

  /** Neighbours i and i + 1 point at each other. */
  ghost predicate Joined(w: Words, h: int, nodes: seq<int>, i: int) {
    var a, b := NodeAt(h, nodes, i), NodeAt(h, nodes, i + 1);
    InMemory(w, a) && InMemory(w, b) && w.second[a] == b && w.first[b] == a
  }

  ghost predicate Distinct(h: int, nodes: seq<int>) {
    && h !in nodes
    && forall i, j :: 0 <= i < j < |nodes| ==> nodes[i] != nodes[j]
  }

  /** The circular list headed by unit h has exactly the given nodes, in this order. */
  ghost predicate Ring(w: Words, h: int, nodes: seq<int>) {
    && Distinct(h, nodes)
    && forall i {:trigger Joined(w, h, nodes, i)} :: -1 <= i < |nodes| ==> Joined(w, h, nodes, i)
  }

  /** The two memories agree on unit a. */
  ghost predicate SameAt(w: Words, v: Words, a: int) {
    InMemory(w, a) ==> InMemory(v, a) && v.first[a] == w.first[a] && v.second[a] == w.second[a]
  }

  ghost function Emptied(w: Words, h: int): Words
    requires InMemory(w, h)
  {
    Words(w.first[h := h], w.second[h := h])
  }

  ghost function Linked(w: Words, h: int, n: int): Words
    requires InMemory(w, h) && InMemory(w, n) && InMemory(w, w.second[h]) && n != h
  {
    Words(w.first[n := h][w.second[h] := n], w.second[n := w.second[h]][h := n])
  }

  ghost function Unlinked(w: Words, n: int): Words
    requires InMemory(w, n) && InMemory(w, w.first[n]) && InMemory(w, w.second[n])
    requires w.first[n] != n
  {
    Words(w.first[w.second[n] := w.first[n]], w.second[w.first[n] := w.second[n]])
  }

  lemma RingFrame(w: Words, v: Words, h: int, nodes: seq<int>)
    requires Ring(w, h, nodes)
    requires SameAt(w, v, h) && forall n :: n in nodes ==> SameAt(w, v, n)
    ensures Ring(v, h, nodes)
  {
    forall i | -1 <= i < |nodes| ensures Joined(v, h, nodes, i) {
      assert Joined(w, h, nodes, i);
      assert SameAt(w, v, NodeAt(h, nodes, i)) && SameAt(w, v, NodeAt(h, nodes, i + 1));
    }
  }

  /** What the ring says about the head and about one node. */
  lemma Neighbours(w: Words, h: int, nodes: seq<int>, i: int)
    requires Ring(w, h, nodes) && -1 <= i < |nodes|
    ensures var n := NodeAt(h, nodes, i);
            && InMemory(w, n)
            && w.second[n] == NodeAt(h, nodes, i + 1)
            && w.first[n] == NodeAt(h, nodes, if i < 0 then |nodes| - 1 else i - 1)
            && InMemory(w, w.second[n]) && InMemory(w, w.first[n])
  {
    assert Joined(w, h, nodes, i);
    assert Joined(w, h, nodes, if i < 0 then |nodes| - 1 else i - 1);
  }

  lemma LinkedRing(w: Words, h: int, n: int, nodes: seq<int>)
    requires Ring(w, h, nodes) && InMemory(w, n) && n != h && n !in nodes
    ensures InMemory(w, h) && InMemory(w, w.second[h])
    ensures Ring(Linked(w, h, n), h, [n] + nodes)
    ensures forall a :: a != h && a != n && a !in nodes ==> SameAt(w, Linked(w, h, n), a)
  {
    Neighbours(w, h, nodes, -1);
    var v, all := Linked(w, h, n), [n] + nodes;
    forall i | -1 <= i < |all| ensures Joined(v, h, all, i) {
      if i > 0 {
        assert Joined(w, h, nodes, i - 1);
      }
    }
  }

  lemma UnlinkedRing(w: Words, h: int, nodes: seq<int>, i: nat)
    requires Ring(w, h, nodes) && i < |nodes|
    ensures var n := nodes[i];
            && InMemory(w, n) && InMemory(w, w.first[n]) && InMemory(w, w.second[n]) && w.first[n] != n
            && Ring(Unlinked(w, n), h, nodes[..i] + nodes[i + 1..])
            && forall a :: a != h && (a == n || a !in nodes) ==> SameAt(w, Unlinked(w, n), a)
  {
    Neighbours(w, h, nodes, i);
    var n := nodes[i];
    var v, rest := Unlinked(w, n), nodes[..i] + nodes[i + 1..];
    forall j | -1 <= j < |rest| ensures Joined(v, h, rest, j) {
      Neighbours(w, h, nodes, if j < i then j else j + 1);
      assert Joined(w, h, nodes, if j < i then j else j + 1);
      assert NodeAt(h, rest, j) == NodeAt(h, nodes, if j < i then j else j + 1);
      assert NodeAt(h, rest, j + 1) == NodeAt(h, nodes, if j + 1 < i then j + 1 else j + 2);
    }
  }

  class Memory {
    const first: array<int>
    const second: array<int>

    ghost predicate Valid()
      reads this
    {
      first != second && first.Length == second.Length
    }

    ghost function Contents(): Words
      reads this, first, second
    {
      Words(first[..], second[..])
    }

    constructor (n: nat)
      ensures Valid() && fresh(first) && fresh(second) && first.Length == n
    {
      first, second := new int[n], new int[n];
    }

    method ListEmpty(h: int)
      requires Valid() && 0 <= h < first.Length
      modifies first, second
      ensures Contents() == Emptied(old(Contents()), h)
    {
      second[h] := h;
      first[h] := h;
    }

    method ListIsEmpty(h: int, ghost nodes: seq<int>) returns (r: bool)
      requires Valid() && Ring(Contents(), h, nodes)
      ensures r <==> nodes == []
    {
      Neighbours(Contents(), h, nodes, -1);
      r := first[h] == h;
    }

    method ListAddFirst(h: int, n: int)
      requires Valid() && 0 <= h < first.Length && 0 <= n < first.Length && n != h
      requires InMemory(Contents(), second[h])
      modifies first, second
      ensures Contents() == Linked(old(Contents()), h, n)
    {
      second[n] := second[h];
      first[n] := h;
      first[second[h]] := n;
      second[h] := n;
    }

    method ListRemove(n: int)
      requires Valid() && 0 <= n < first.Length && first[n] != n
      requires InMemory(Contents(), first[n]) && InMemory(Contents(), second[n])
      modifies first, second
      ensures Contents() == Unlinked(old(Contents()), n)
    {
      second[first[n]] := second[n];
      first[second[n]] := first[n];
    }
  }
}
