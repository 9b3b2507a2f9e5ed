// The chained hash map as its buckets: a finite map over the classes of equal keys.
module HashTables {
  import opened Sequences
  import Numerals

  // How keys are hashed and compared; the source takes both as function pointers.
  datatype Keying<!K> = Keying(hash: K -> int, same: (K, K) -> bool)

  // Comparing is an equivalence, and equal keys have equal hashes.
  ghost predicate Consistent<K(!new)>(q: Keying<K>) {
    (forall x :: q.same(x, x)) && (forall x, y :: q.same(x, y) ==> q.same(y, x) && q.hash(x) == q.hash(y))
    && (forall x, y, z :: q.same(x, y) && q.same(y, z) ==> q.same(x, z))
  }

  datatype Entry<K, V> = Entry(key: K, data: V)

  type Table<K, V> = seq<seq<Entry<K, V>>>

  function Bucket(hash: int, size: nat): (b: nat)
    requires size > 0
    ensures b < size
  {
    (hash % Numerals.WORD) % size
  }

  predicate Hit<K>(q: Keying<K>, x: K, k: K) { q.hash(x) == q.hash(k) && q.same(x, k) }

  // The place of the first entry with an equal key, or the length of the chain.
  function Find<K, V>(q: Keying<K>, c: seq<Entry<K, V>>, k: K): (i: nat)
    ensures i <= |c| && (i < |c| ==> Hit(q, c[i].key, k)) && forall j :: 0 <= j < i ==> !Hit(q, c[j].key, k)
  {
    if c == [] || Hit(q, c[0].key, k) then 0 else 1 + Find(q, c[1..], k)
  }

  function Chain<K, V>(q: Keying<K>, t: Table<K, V>, k: K): seq<Entry<K, V>>
    requires |t| > 0
  {
    t[Bucket(q.hash(k), |t|)]
  }

  function Get<K, V>(q: Keying<K>, t: Table<K, V>, k: K): Option<V>
    requires |t| > 0
  {
    var c := Chain(q, t, k);
    var i := Find(q, c, k);
    if i < |c| then Some(c[i].data) else None
  }

  function PutChain<K, V>(c: seq<Entry<K, V>>, i: nat, k: K, v: V): seq<Entry<K, V>> {
    if i < |c| then c[i := Entry(c[i].key, v)] else c + [Entry(k, v)]
  }

  function Put<K, V>(q: Keying<K>, t: Table<K, V>, k: K, v: V): Table<K, V>
    requires |t| > 0
  {
    var c := Chain(q, t, k);
    t[Bucket(q.hash(k), |t|) := PutChain(c, Find(q, c, k), k, v)]
  }

  function RemoveChain<T>(c: seq<T>, i: nat): seq<T> {
    if i < |c| then c[..i] + c[i + 1..] else c
  }

  function Remove<K, V>(q: Keying<K>, t: Table<K, V>, k: K): Table<K, V>
    requires |t| > 0
  {
    var c := Chain(q, t, k);
    t[Bucket(q.hash(k), |t|) := RemoveChain(c, Find(q, c, k))]
  }

  // ---- The invariant ----

  ghost predicate GoodChain<K, V>(q: Keying<K>, c: seq<Entry<K, V>>, b: nat, size: nat)
    requires size > 0
  {
    (forall i :: 0 <= i < |c| ==> Bucket(q.hash(c[i].key), size) == b)
    && (forall i, j :: 0 <= i < j < |c| ==> !q.same(c[i].key, c[j].key))
  }

  ghost predicate Good<K, V>(q: Keying<K>, t: Table<K, V>) {
    |t| > 0 && forall b :: 0 <= b < |t| ==> GoodChain(q, t[b], b, |t|)
  }

  lemma PutKeepsGood<K(!new), V>(q: Keying<K>, t: Table<K, V>, k: K, v: V)
    requires Consistent(q) && Good(q, t)
    ensures Good(q, Put(q, t, k, v))
  {}

  lemma RemoveKeepsGood<K(!new), V>(q: Keying<K>, t: Table<K, V>, k: K)
    requires Consistent(q) && Good(q, t)
    ensures Good(q, Remove(q, t, k))
  {
    var b := Bucket(q.hash(k), |t|);
    var c := t[b];
    assert GoodChain(q, c, b, |t|);
    RemoveKeepsChain(q, c, b, |t|, Find(q, c, k));
  }

  lemma RemoveKeepsChain<K(!new), V>(q: Keying<K>, c: seq<Entry<K, V>>, b: nat, size: nat, i: nat)
    requires size > 0 && GoodChain(q, c, b, size)
    ensures GoodChain(q, RemoveChain(c, i), b, size)
  {
    if i < |c| { RemoveShape(c, i); }
    hide RemoveChain, Bucket;
  }

  // ---- The finite map ----

  // In a good table, an entry is found exactly where its key is equal.
  lemma FindIs<K(!new), V>(q: Keying<K>, c: seq<Entry<K, V>>, b: nat, size: nat, k: K, i: nat)
    requires Consistent(q) && size > 0 && GoodChain(q, c, b, size) && i < |c| && q.same(c[i].key, k)
    ensures Find(q, c, k) == i
  {
    hide Consistent;
    var j := Find(q, c, k);
    Equal(q, c[i].key, k);
    if j < i {
      Alike(q, c[j].key, c[i].key, k);
    }
  }

  lemma Equal<K(!new)>(q: Keying<K>, x: K, y: K)
    requires Consistent(q)
    ensures Hit(q, x, y) <==> q.same(x, y)
    ensures q.same(x, y) <==> q.same(y, x)
  {}

  lemma Alike<K(!new)>(q: Keying<K>, x: K, y: K, k: K)
    requires Consistent(q)
    ensures q.same(x, k) && q.same(y, k) ==> q.same(x, y)
  {}

  lemma PutMeans<K(!new), V>(q: Keying<K>, t: Table<K, V>, k: K, v: V, j: K)
    requires Consistent(q) && Good(q, t)
    ensures Get(q, Put(q, t, k, v), j) == if q.same(k, j) then Some(v) else Get(q, t, j)
  {
    var b := Bucket(q.hash(k), |t|);
    var c := t[b];
    var i := Find(q, c, k);
    var d := PutChain(c, i, k, v);
    PutKeepsGood(q, t, k, v);
    assert Put(q, t, k, v)[b] == d && GoodChain(q, d, b, |t|);
    if q.same(k, j) {
      assert q.same(d[i].key, j);
      FindIs(q, d, b, |t|, j, i);
    } else if Bucket(q.hash(j), |t|) == b {
      SameFind(q, c, d, j, i);
    }
  }

  // Where only the entry at `i` differs, and it is not of key `j`, `j` is found as before.
  lemma SameFind<K(!new), V>(q: Keying<K>, c: seq<Entry<K, V>>, d: seq<Entry<K, V>>, j: K, i: nat)
    requires |c| <= |d| <= |c| + 1 && i < |d| && (|d| > |c| ==> i == |c|) && !q.same(d[i].key, j)
    requires i < |c| ==> !q.same(c[i].key, j)
    requires forall m :: 0 <= m < |c| && m != i ==> c[m] == d[m]
    ensures var x, y := Find(q, c, j), Find(q, d, j);
      if x < |c| then y == x && d[x] == c[x] else y == |d|
  {
    var x, y := Find(q, c, j), Find(q, d, j);
    assert x < |c| ==> x != i && Hit(q, d[x].key, j);
    assert y < |d| ==> y != i && Hit(q, c[y].key, j);
  }

  lemma RemoveMeans<K(!new), V>(q: Keying<K>, t: Table<K, V>, k: K, j: K)
    requires Consistent(q) && Good(q, t)
    ensures Get(q, Remove(q, t, k), j) == if q.same(k, j) then None else Get(q, t, j)
  {
    var b := Bucket(q.hash(k), |t|);
    RemoveKeepsGood(q, t, k);
    assert GoodChain(q, t[b], b, |t|) && GoodChain(q, Remove(q, t, k)[b], b, |t|);
    if Bucket(q.hash(j), |t|) == b {
      if q.same(k, j) {
        RemovedIsGone(q, t[b], b, |t|, k, j);
      } else {
        OthersStay(q, t[b], b, |t|, k, j);
      }
    }
  }

  lemma RemoveShape<T>(c: seq<T>, i: nat)
    requires i < |c|
    ensures var r := RemoveChain(c, i);
      |r| == |c| - 1 && (forall m :: 0 <= m < i ==> r[m] == c[m]) && (forall m :: i <= m < |r| ==> r[m] == c[m + 1])
  {}

  lemma RemovedIsGone<K(!new), V>(q: Keying<K>, c: seq<Entry<K, V>>, b: nat, size: nat, k: K, j: K)
    requires Consistent(q) && size > 0 && GoodChain(q, c, b, size) && q.same(k, j)
    ensures var r := RemoveChain(c, Find(q, c, k)); Find(q, r, j) == |r|
  {
    hide RemoveChain, GoodChain;
    var i := Find(q, c, k);
    if i < |c| { RemoveShape(c, i); } else { assert RemoveChain(c, i) == c by { RemoveNothing(c, i); } }
    var r := RemoveChain(c, i);
    var y := Find(q, r, j);
    if y < |r| {
      var m := if y < i then y else y + 1;
      assert r[y] == c[m] && q.same(c[m].key, j) && q.same(j, k);
      FindIs(q, c, b, size, k, m);
    }
  }

  lemma RemoveNothing<T>(c: seq<T>, i: nat)
    requires i >= |c|
    ensures RemoveChain(c, i) == c
  {}

  lemma OthersStay<K(!new), V>(q: Keying<K>, c: seq<Entry<K, V>>, b: nat, size: nat, k: K, j: K)
    requires Consistent(q) && size > 0 && GoodChain(q, c, b, size) && !q.same(k, j)
    requires GoodChain(q, RemoveChain(c, Find(q, c, k)), b, size)
    ensures var r, x := RemoveChain(c, Find(q, c, k)), Find(q, c, j);
      var y := Find(q, r, j);
      if x < |c| then y < |r| && r[y] == c[x] else y == |r|
  {
    hide RemoveChain, GoodChain, Consistent;
    var i, x := Find(q, c, k), Find(q, c, j);
    if i < |c| { RemoveShape(c, i); } else { RemoveNothing(c, i); }
    var r := RemoveChain(c, i);
    var y := Find(q, r, j);
    Equal(q, k, j);
    if x < |c| {
      if i < |c| {
        Equal(q, c[i].key, k);
        Equal(q, c[x].key, j);
        Alike(q, k, j, c[i].key);
      }
      FindIs(q, r, b, size, j, if x < i then x else x - 1);
    }
  }

  // Putting under a key that is there replaces the data only: the keys stay, and their order. A
  // new key goes to the end of the chain of its hash, which is taken as unsigned.
  lemma PutShape<K(!new), V>(q: Keying<K>, t: Table<K, V>, k: K, v: V)
    requires Good(q, t)
    ensures var u, b := Put(q, t, k, v), (q.hash(k) % 0x1_0000_0000) % |t|;
      && |u| == |t| && (forall j :: 0 <= j < |t| && j != b ==> u[j] == t[j])
      && (if Get(q, t, k).None? then u[b] == t[b] + [Entry(k, v)]
          else |u[b]| == |t[b]| && forall i :: 0 <= i < |t[b]| ==>
            u[b][i].key == t[b][i].key && (u[b][i].data == t[b][i].data || (q.same(t[b][i].key, k) && u[b][i].data == v)))
  {}

  // ---- Whole runs ----

  datatype Op<K, V> = OpPut(key: K, data: V) | OpRemove(key: K)

  function Step<K, V>(q: Keying<K>, t: Table<K, V>, op: Op<K, V>): (u: Table<K, V>)
    requires |t| > 0
    ensures |u| == |t|
  {
    match op
    case OpPut(k, v) => Put(q, t, k, v)
    case OpRemove(k) => Remove(q, t, k)
  }

  function Run<K, V>(q: Keying<K>, size: nat, ops: seq<Op<K, V>>): (t: Table<K, V>)
    requires size > 0
    ensures |t| == size
  {
    if ops == [] then seq(size, i => [])
    else Step(q, Run(q, size, ops[..|ops| - 1]), ops[|ops| - 1])
  }

  // The finite map of a history, without any table: the last operation on an equal key decides.
  function Latest<K, V>(q: Keying<K>, ops: seq<Op<K, V>>, j: K): Option<V> {
    if ops == [] then None
    else
      var op := ops[|ops| - 1];
      if q.same(op.key, j) then (if op.OpPut? then Some(op.data) else None)
      else Latest(q, ops[..|ops| - 1], j)
  }

  // Over every run, looking up answers with what was last put under an equal key.
  lemma {:induction false} RunRefinesMap<K(!new), V>(q: Keying<K>, size: nat, ops: seq<Op<K, V>>, j: K)
    requires Consistent(q) && size > 0
    ensures Good(q, Run(q, size, ops)) && Get(q, Run(q, size, ops), j) == Latest(q, ops, j)
  {
    if ops != [] {
      var t, op := Run(q, size, ops[..|ops| - 1]), ops[|ops| - 1];
      RunRefinesMap(q, size, ops[..|ops| - 1], j);
      match op {
        case OpPut(k, v) =>
          PutKeepsGood(q, t, k, v);
          PutMeans(q, t, k, v, j);
        case OpRemove(k) =>
          RemoveKeepsGood(q, t, k);
          RemoveMeans(q, t, k, j);
      }
    }
  }

  // ---- The order of iteration ----

  function Flat<T>(t: seq<seq<T>>): seq<T> {
    if t == [] then [] else t[0] + Flat(t[1..])
  }

  lemma {:induction false} FlatHolds<T>(t: seq<seq<T>>, e: T)
    ensures e in Flat(t) <==> exists b :: 0 <= b < |t| && e in t[b]
  {
    if t != [] {
      FlatHolds(t[1..], e);
      assert forall b :: 1 <= b < |t| ==> t[b] == t[1..][b - 1];
    }
  }

  // Iterating yields every association, each class of keys once.
  lemma IterationIsExact<K(!new), V>(q: Keying<K>, t: Table<K, V>)
    requires Consistent(q) && Good(q, t)
    ensures forall i, j :: 0 <= i < j < |Flat(t)| ==> !q.same(Flat(t)[i].key, Flat(t)[j].key)
    ensures forall k, v :: Get(q, t, k) == Some(v) <==> exists e <- Flat(t) :: q.same(e.key, k) && e.data == v
  {
    FlatDistinct(q, t, 0);
    assert t[0..] == t;
    forall k, v ensures Get(q, t, k) == Some(v) <==> exists e <- Flat(t) :: q.same(e.key, k) && e.data == v {
      GetIffListed(q, t, k, v);
    }
  }

  lemma GetIffListed<K(!new), V>(q: Keying<K>, t: Table<K, V>, k: K, v: V)
    requires Consistent(q) && Good(q, t)
    ensures Get(q, t, k) == Some(v) <==> exists e <- Flat(t) :: q.same(e.key, k) && e.data == v
  {
    if Get(q, t, k) == Some(v) {
      var c := Chain(q, t, k);
      FlatHolds(t, c[Find(q, c, k)]);
    }
    if e: Entry<K, V> :| e in Flat(t) && q.same(e.key, k) && e.data == v {
      FlatHolds(t, e);
      var b :| 0 <= b < |t| && e in t[b];
      var i :| 0 <= i < |t[b]| && t[b][i] == e;
      assert GoodChain(q, t[b], b, |t|);
      FindIs(q, t[b], b, |t|, k, i);
    }
  }

  // The chains of a good table from bucket `from` on.
  lemma {:induction false} FlatDistinct<K(!new), V>(q: Keying<K>, t: Table<K, V>, from: nat)
    requires Consistent(q) && Good(q, t) && from <= |t|
    ensures forall i, j :: 0 <= i < j < |Flat(t[from..])| ==> !q.same(Flat(t[from..])[i].key, Flat(t[from..])[j].key)
    ensures forall i :: 0 <= i < |Flat(t[from..])| ==> Bucket(q.hash(Flat(t[from..])[i].key), |t|) >= from
    decreases |t| - from
  {
    if from < |t| {
      FlatDistinct(q, t, from + 1);
      assert t[from..][1..] == t[from + 1..];
      assert GoodChain(q, t[from], from, |t|);
    }
  }
}
