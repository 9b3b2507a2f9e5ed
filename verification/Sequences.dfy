/** Options, and lists as sequences without duplicates.

    Remove takes the first occurrence of a value out, as unlinking a list node does; the lemmas
    say what stays and, for sequences without duplicates, where the value was.  Image maps a
    sequence, so that a list of blocks can be seen as the list of their addresses in memory. */
module Sequences {

  datatype Option<+T> = None | Some(value: T)

  ghost predicate NoDup<T>(s: seq<T>) {
    forall i, j :: 0 <= i < j < |s| ==> s[i] != s[j]
  }

  /** The list without the (only) occurrence of x. */
  function Remove<T(==)>(s: seq<T>, x: T): (r: seq<T>)
    ensures forall y :: y in r ==> y in s
  {
    if s == [] then []
    else if s[0] == x then s[1..]
    else [s[0]] + Remove(s[1..], x)
  }

  lemma {:induction false} RemoveKeeps<T>(s: seq<T>, x: T)
    requires NoDup(s)
    ensures NoDup(Remove(s, x))
    ensures forall y :: y in Remove(s, x) <==> y in s && y != x
  {
    if s != [] && s[0] != x {
      RemoveKeeps(s[1..], x);
      assert s[0] !in s[1..];
    }
  }

  lemma {:induction false} RemoveAt<T>(s: seq<T>, i: nat)
    requires NoDup(s) && i < |s|
    ensures Remove(s, s[i]) == s[..i] + s[i + 1..]
  {
    if i > 0 {
      RemoveAt(s[1..], i - 1);
    }
  }

  /** The list of the images under f. */
  ghost function Image<T>(f: T -> int, s: seq<T>): (r: seq<int>)
    ensures |r| == |s| && forall i :: 0 <= i < |s| ==> r[i] == f(s[i])
  {
    seq(|s|, i requires 0 <= i < |s| => f(s[i]))
  }

  lemma ImageAppend<T>(f: T -> int, a: seq<T>, b: seq<T>)
    ensures Image(f, a + b) == Image(f, a) + Image(f, b)
  {
  }

  lemma ImageSlice<T>(f: T -> int, s: seq<T>, i: nat, j: nat)
    requires i <= j <= |s|
    ensures Image(f, s[i..j]) == Image(f, s)[i..j]
  {
  }

  lemma ImageRemove<T>(f: T -> int, s: seq<T>, i: nat)
    requires NoDup(s) && i < |s|
    ensures Image(f, Remove(s, s[i])) == Image(f, s)[..i] + Image(f, s)[i + 1..]
  {
    hide Image, NoDup, Remove;
    RemoveAt(s, i);
    ImageAppend(f, s[..i], s[i + 1..]);
    ImageSlice(f, s, 0, i);
    ImageSlice(f, s, i + 1, |s|);
  }
}
