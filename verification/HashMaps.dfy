// The chained hash map and its iterator in memory (libs/data-struct/hashmap.c). The class
// `HashMap` carries out the operations that module HashTables describes on buckets.
//
// The ghost fields hold, per bucket, the nodes in chain order and the entries they stand for;
// `Valid` ties the links and the fields of the nodes to them. A change of one chain leaves the
// others alone because every node remembers its hash, and the hash decides the bucket.
module HashMaps {
  import opened Sequences
  import opened HashTables

  class Node<K, V> {
    var hash: int
    var key: K
    var data: V
    var next: Node?<K, V>

    constructor (hash: int, key: K, data: V)
      ensures this.hash == hash && this.key == key && this.data == data && next == null
    {
      this.hash, this.key, this.data, this.next := hash, key, data, null;
    }
  }

  // The nodes of `c` are linked in this order from `head` on.
  ghost predicate Linked<K, V>(head: Node?<K, V>, c: seq<Node<K, V>>)
    reads c`next
  {
    head == At(c, 0) && forall i :: 0 <= i < |c| ==> c[i].next == At(c, i + 1)
  }

  lemma LinkedParts<K, V>(head: Node?<K, V>, c: seq<Node<K, V>>)
    requires Linked(head, c)
    ensures head == (if c == [] then null else c[0]) && forall m :: 0 <= m < |c| - 1 ==> c[m].next == c[m + 1]
  {}

  lemma LastIs<K, V>(c: seq<Node<K, V>>)
    ensures c != [] ==> At(c, |c| - 1) == c[|c| - 1]
  {}

  lemma LinkedEnd<K, V>(head: Node?<K, V>, c: seq<Node<K, V>>, mn: Node<K, V>)
    requires forall m :: 0 <= m < |c| - 1 ==> c[m].next == c[m + 1]
    requires if c == [] then head == mn else head == c[0] && c[|c| - 1].next == mn
    requires mn.next == null
    ensures Linked(head, c + [mn])
  {}

  ghost function At<K, V>(c: seq<Node<K, V>>, i: nat): Node?<K, V> {
    if i < |c| then c[i] else null
  }

  class HashMap<K(!new), V> {
    const q: Keying<K>
    const node: array<Node?<K, V>>
    ghost var chains: seq<seq<Node<K, V>>>
    ghost var nodes: set<Node<K, V>>

    ghost var contents: Table<K, V>

    // The chain of bucket `b` holds the entries of `contents[b]`; every node remembers the
    // hash of its key and stands in one place only.
    ghost predicate Holds(b: nat)
      reads this, nodes`hash, nodes`key, nodes`data
      requires b < node.Length == |chains| == |contents|
    {
      var c, e := chains[b], contents[b];
      |c| == |e|
      && (forall i :: 0 <= i < |c| ==> c[i] in nodes && c[i].hash == q.hash(c[i].key))
      && (forall i :: 0 <= i < |c| ==> Bucket(c[i].hash, node.Length) == b && e[i] == Entry(c[i].key, c[i].data))
      && (forall i, j :: 0 <= i < j < |c| ==> c[i] != c[j])
    }

    ghost predicate ChainValid(b: nat)
      reads this, node, nodes
      requires b < node.Length == |chains| == |contents|
    {
      Holds(b) && Linked(node[b], chains[b])
    }

    ghost predicate Chained()
      reads this, node, nodes
    {
      0 < node.Length == |chains| == |contents| && forall b :: 0 <= b < node.Length ==> ChainValid(b)
    }

    ghost predicate Valid()
      reads this, node, nodes
    {
      Chained() && Consistent(q) && Good(q, contents)
    }

    constructor (q: Keying<K>, size: nat)
      requires Consistent(q) && size > 0
      ensures Valid() && fresh(node) && nodes == {}
      ensures this.q == q && contents == Run(q, size, [])
    {
      this.q := q;
      node := new Node?<K, V>[size];
      chains := seq(size, i => []);
      contents := Run(q, size, []);
      nodes := {};
      new;
      var i := 0;
      while i < size
        invariant 0 <= i <= size && fresh(node)
        invariant forall j :: 0 <= j < i ==> node[j] == null
        modifies node
      {
        node[i] := null;
        i := i + 1;
      }
      assert forall b :: 0 <= b < node.Length ==> ChainValid(b);
    }

    lemma NodeAt(b: nat, i: nat)
      requires Valid() && b < node.Length == |chains| == |contents|
      ensures |chains[b]| == |contents[b]| && node[b] == At(chains[b], 0)
      ensures var c := chains[b];
        i < |c| ==> c[i].next == At(c, i + 1) && c[i].hash == q.hash(c[i].key) && contents[b][i] == Entry(c[i].key, c[i].data)
    {
      assert ChainValid(b);
    }

    // The place of the first node with an equal key; `c` is the node itself and `prev` the
    // one before it, null at the head of the bucket.
    method Walk(k: K, hash: int) returns (c: Node?<K, V>, prev: Node?<K, V>)
      requires Valid() && hash == q.hash(k)
      ensures var b := Bucket(hash, node.Length);
        var i := Find(q, contents[b], k);
        c == At(chains[b], i) && prev == if i == 0 then null else At(chains[b], i - 1)
    {
      hide Valid, Find;
      Sizes();
      ghost var b := Bucket(hash, node.Length);
      ghost var chain, e := chains[b], contents[b];
      NodeAt(b, 0);
      c := node[Bucket(hash, node.Length)];
      prev := null;
      ghost var i := 0;
      while c != null
        invariant i <= |chain| && c == At(chain, i) && prev == if i == 0 then null else At(chain, i - 1)
        invariant forall j :: 0 <= j < i ==> !Hit(q, e[j].key, k)
        decreases |chain| - i
      {
        NodeAt(b, i);
        if c.hash == hash && q.same(c.key, k) {
          FoundAt(q, e, k, i);
          return;
        }
        prev := c;
        c := c.next;
        i := i + 1;
      }
      FoundAt(q, e, k, i);
    }

    lemma Sizes()
      requires Valid()
      ensures 0 < node.Length == |chains| == |contents|
    {}

    method Lookup(k: K) returns (r: Option<V>)
      requires Valid()
      ensures r == Get(q, contents, k)
    {
      var hash := q.hash(k);
      var c, _ := Walk(k, hash);
      assert ChainValid(Bucket(hash, node.Length));
      if c == null { return None; }
      return Some(c.data);
    }

    // The three changes of a chain: new data in place, a node at the end, a node taken out.

    method Overwrite(ghost b: nat, ghost i: nat, c: Node<K, V>, v: V)
      requires Chained() && b < node.Length && i < |chains[b]| == |contents[b]| && c == chains[b][i]
      modifies c`data, this`contents
      ensures Chained() && contents == old(contents[b := contents[b][i := Entry(c.key, v)]])
    {
      assert ChainValid(b);
      contents := contents[b := contents[b][i := Entry(c.key, v)]];
      c.data := v;
      Others(b);
      assert ChainValid(b);
    }

    method Append(b: nat, prev: Node?<K, V>, hash: int, k: K, v: V)
      requires Chained() && b < node.Length && hash == q.hash(k) && Bucket(hash, node.Length) == b
      requires var c := chains[b]; prev == if c == [] then null else At(c, |c| - 1)
      modifies node, nodes`next, this`contents, this`chains, this`nodes
      ensures Chained() && contents == old(contents[b := contents[b] + [Entry(k, v)]])
      ensures old(nodes) <= nodes && fresh(nodes - old(nodes))
    {
      hide Bucket;
      var mn := new Node(hash, k, v);
      Join(b, prev, mn);
    }

    method Join(b: nat, prev: Node?<K, V>, mn: Node<K, V>)
      requires Chained() && b < node.Length && mn.hash == q.hash(mn.key) && Bucket(mn.hash, node.Length) == b
      requires mn !in nodes && mn.next == null
      requires var c := chains[b]; prev == if c == [] then null else At(c, |c| - 1)
      modifies node, nodes`next, this`contents, this`chains, this`nodes
      ensures Chained() && contents == old(contents[b := contents[b] + [Entry(mn.key, mn.data)]])
      ensures nodes == old(nodes) + {mn}
    {
      hide Bucket, Linked, At;
      assert ChainValid(b);
      LinkedParts(node[b], chains[b]);
      ghost var was := chains[b];
      contents := contents[b := contents[b] + [Entry(mn.key, mn.data)]];
      chains := chains[b := was + [mn]];
      nodes := nodes + {mn};
      assert Holds(b);
      LastIs(was);
      if prev == null { node[b] := mn; } else { prev.next := mn; }
      Others(b);
      LinkedEnd(node[b], was, mn);
      assert ChainValid(b);
    }

    method Unlink(b: nat, ghost i: nat, c: Node<K, V>, prev: Node?<K, V>)
      requires Chained() && b < node.Length && i < |chains[b]| == |contents[b]| && c == chains[b][i]
      requires prev == if i == 0 then null else At(chains[b], i - 1)
      modifies node, nodes`next, this`contents, this`chains
      ensures Chained() && contents == old(contents[b := RemoveChain(contents[b], i)])
    {
      hide RemoveChain, Bucket;
      assert ChainValid(b);
      HashTables.RemoveShape(chains[b], i);
      HashTables.RemoveShape(contents[b], i);
      contents := contents[b := RemoveChain(contents[b], i)];
      chains := chains[b := RemoveChain(chains[b], i)];
      assert IsShrunk(b, i);
      Shrunk(b);
      ghost var was, now := old(chains[b]), chains[b];
      if prev == null { node[b] := c.next; } else { prev.next := c.next; }
      Others(b);
      forall m | 0 <= m < |now| ensures now[m].next == At(now, m + 1) {
        assert m != i - 1 ==> now[m] != prev;
      }
      assert Linked(node[b], now);
      assert ChainValid(b);
    }

    twostate predicate IsShrunk(b: nat, i: nat)
      reads this
      requires b < |chains| == |contents| == |old(chains)| == |old(contents)|
    {
      chains[b] == RemoveChain(old(chains[b]), i) && contents[b] == RemoveChain(old(contents[b]), i)
    }

    // Taking out one node of a chain, in the ghost state only.
    twostate lemma Shrunk(b: nat)
      requires b < node.Length == |chains| == |contents| == |old(chains)| == |old(contents)|
      requires old(Holds(b)) && nodes == old(nodes)
      requires exists i :: 0 <= i < |old(chains[b])| && IsShrunk(b, i)
      requires forall n <- nodes :: n.hash == old(n.hash) && n.key == old(n.key) && n.data == old(n.data)
      ensures Holds(b)
    {
      hide RemoveChain, Bucket;
      var i :| 0 <= i < |old(chains[b])| && IsShrunk(b, i);
      var was, c, e := old(chains[b]), chains[b], contents[b];
      HashTables.RemoveShape(was, i);
      HashTables.RemoveShape(old(contents[b]), i);
      forall m | 0 <= m < |c|
        ensures c[m] in nodes && c[m].hash == q.hash(c[m].key) && Bucket(c[m].hash, node.Length) == b
        ensures e[m] == Entry(c[m].key, c[m].data)
      {
        assert c[m] == was[if m < i then m else m + 1];
      }
      assert forall m, l :: 0 <= m < l < |c| ==> c[m] != c[l];
    }

    // True exactly when the key is new.
    method PutKey(k: K, v: V) returns (added: bool)
      requires Valid()
      modifies this, node, nodes
      ensures Valid() && contents == Put(q, old(contents), k, v)
      ensures added <==> Get(q, old(contents), k).None?
      ensures old(nodes) <= nodes && fresh(nodes - old(nodes))
    {
      hide Good, Consistent;
      PutKeepsGood(q, contents, k, v);
      var hash := q.hash(k);
      var c, prev := Walk(k, hash);
      var b := Bucket(hash, node.Length);
      ghost var i := Find(q, contents[b], k);
      assert ChainValid(b);
      if c != null {
        Overwrite(b, i, c, v);
        return false;
      }
      Append(b, prev, hash, k, v);
      return true;
    }

    method RemoveKey(k: K) returns (r: Option<V>)
      requires Valid()
      modifies this, node, nodes
      ensures Valid() && contents == HashTables.Remove(q, old(contents), k)
      ensures r == Get(q, old(contents), k) && nodes == old(nodes)
    {
      hide Good, Consistent;
      RemoveKeepsGood(q, contents, k);
      var hash := q.hash(k);
      var c, prev := Walk(k, hash);
      var b := Bucket(hash, node.Length);
      ghost var i := Find(q, contents[b], k);
      assert ChainValid(b);
      if c == null {
        RemoveNothing(contents[b], i);
        return None;
      }
      r := Some(c.data);
      Unlink(b, i, c, prev);
    }

    // A change of bucket `b` and of nodes of its hash leaves the other chains valid.
    twostate lemma Others(b: nat)
      requires old(Chained()) && b < node.Length && old(nodes) <= nodes
      requires |chains| == |contents| == node.Length
      requires forall j :: 0 <= j < node.Length && j != b ==>
        chains[j] == old(chains[j]) && contents[j] == old(contents[j]) && node[j] == old(node[j])
      requires forall n <- old(nodes) :: Bucket(n.hash, node.Length) != b ==>
        n.hash == old(n.hash) && n.key == old(n.key) && n.data == old(n.data) && n.next == old(n.next)
      requires forall n <- old(nodes) :: n.hash == old(n.hash)
      ensures forall j :: 0 <= j < node.Length && j != b ==> ChainValid(j)
    {
      forall j | 0 <= j < node.Length && j != b ensures ChainValid(j) {
        assert old(ChainValid(j));
      }
    }
  }

  lemma FoundAt<K, V>(q: Keying<K>, c: seq<Entry<K, V>>, k: K, i: nat)
    requires i <= |c| && (forall j :: 0 <= j < i ==> !Hit(q, c[j].key, k)) && (i < |c| ==> Hit(q, c[i].key, k))
    ensures Find(q, c, k) == i
  {}

  // One pass over a map that does not change meanwhile.
  class Iterator<K(!new), V> {
    const hm: HashMap<K, V>
    var index: int
    var next: Node?<K, V>
    // What is still to come, and the place of `next` in its chain.
    ghost var left: seq<Entry<K, V>>
    ghost var at: nat

    ghost predicate Valid()
      reads this, hm, hm.node, hm.nodes
    {
      hm.Valid() && -1 <= index < hm.node.Length == |hm.chains| == |hm.contents|
      && if index < 0 then next == null && left == Flat(hm.contents)
         else
           at <= |hm.chains[index]| == |hm.contents[index]| && next == At(hm.chains[index], at)
           && left == Rest(hm.contents, index, at)
    }

    constructor (hm: HashMap<K, V>)
      requires hm.Valid()
      ensures this.hm == hm && Valid() && left == Flat(hm.contents)
    {
      this.hm := hm;
      index, next, at := -1, null, 0;
      left := Flat(hm.contents);
    }

    // The next entry, or None at the end, after which the source frees the iterator.
    method Next() returns (r: Option<Entry<K, V>>)
      requires Valid()
      modifies this
      ensures r == if old(left) == [] then None else Some(old(left)[0])
      ensures r.Some? ==> Valid() && left == old(left)[1..]
    {
      hide Good, Consistent, Flat, Rest, HashMap.Valid;
      if next != null {
        r := Some(Entry(next.key, next.data));
        RestStep(hm.contents, index, at);
        hm.NodeAt(index, at);
        next := next.next;
        at := at + 1;
        left := left[1..];
        return;
      }
      if index >= 0 { RestEnd(hm.contents, index, at); }
      assert hm.contents[0..] == hm.contents;
      index := index + 1;
      while index < hm.node.Length
        invariant 0 <= index <= hm.node.Length
        invariant left == old(left) == Flat(hm.contents[index..])
      {
        var mn := hm.node[index];
        hm.NodeAt(index, 0);
        RestStart(hm.contents, index);
        if mn != null {
          RestStep(hm.contents, index, 0);
          r := Some(Entry(mn.key, mn.data));
          next := mn.next;
          at := 1;
          left := left[1..];
          return;
        }
        RestEnd(hm.contents, index, 0);
        index := index + 1;
      }
      NoRest(hm.contents, index);
      r := None;
    }
  }

  // What is left of the iteration from entry `i` of bucket `b` on.
  function Rest<T>(t: seq<seq<T>>, b: nat, i: nat): seq<T>
    requires b < |t| && i <= |t[b]|
  {
    t[b][i..] + Flat(t[b + 1..])
  }

  lemma RestStep<T>(t: seq<seq<T>>, b: nat, i: nat)
    requires b < |t| && i < |t[b]|
    ensures Rest(t, b, i) == [t[b][i]] + Rest(t, b, i + 1)
  {
    assert t[b][i..] == [t[b][i]] + t[b][i + 1..];
  }

  lemma RestEnd<T>(t: seq<seq<T>>, b: nat, i: nat)
    requires b < |t| && i == |t[b]|
    ensures Rest(t, b, i) == Flat(t[b + 1..])
  {
    assert t[b][i..] == [];
  }

  lemma RestStart<T>(t: seq<seq<T>>, b: nat)
    requires b < |t|
    ensures Flat(t[b..]) == Rest(t, b, 0)
  {
    assert t[b..][1..] == t[b + 1..] && t[b][0..] == t[b];
  }

  lemma NoRest<T>(t: seq<seq<T>>, b: nat)
    requires b == |t|
    ensures Flat(t[b..]) == []
  {
    assert t[b..] == [];
  }
}
