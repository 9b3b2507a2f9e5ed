/** Byte-packed bitmaps with the toggle-and-test that drives coalescing. */
module Bitmaps {
  import opened Pages

  type Byte = b: nat | b < 256

  /** Bit i of a byte string: byte i >> 3, mask 1 << (i & 7). */
  predicate BitAt(bytes: seq<Byte>, i: nat)
    requires i < 8 * |bytes|
  {
    TestBit(bytes[i / 8], i % 8)
  }

  lemma DoubledBits(half: nat, low: nat)
    requires low < 2
    ensures (2 * half + low) / 2 == half && (2 * half + low) % 2 == low
  {
  }

  /** Toggling one bit leaves every other bit of the number alone. */
  lemma {:induction false} ToggleIsLocal(b: nat, m: nat, n: nat)
    ensures TestBit(FlipBit(b, m), n) == (if m == n then !TestBit(b, n) else TestBit(b, n))
  {
    if m > 0 {
      var half := FlipBit(b / 2, m - 1);
      assert FlipBit(b, m) == 2 * half + b % 2;
      DoubledBits(half, b % 2);
      if n > 0 {
        ToggleIsLocal(b / 2, m - 1, n - 1);
      }
    }
  }

  lemma {:induction false} ToggleStaysBelow(b: nat, m: nat, w: nat)
    requires m < w && b < Pow2(w)
    ensures FlipBit(b, m) < Pow2(w)
  {
    hide FlipBit, Pow2;
    var half, low, top := b / 2, b % 2, Pow2(w - 1);
    FlipStep(b, m);
    assert b == 2 * half + low && Pow2(w) == 2 * top by { DoublePower(w); }
    if m > 0 {
      assert half < top;
      ToggleStaysBelow(half, m - 1, w - 1);
    }
  }

  lemma FlipStep(b: nat, m: nat)
    ensures m > 0 ==> FlipBit(b, m) == 2 * FlipBit(b / 2, m - 1) + b % 2
    ensures m == 0 ==> FlipBit(b, m) == 2 * (b / 2) + (1 - b % 2)
  {
  }

  lemma DoublePower(w: nat)
    requires w > 0
    ensures Pow2(w) == 2 * Pow2(w - 1)
  {
  }

  lemma SwitchedBit(before: seq<Byte>, after: seq<Byte>, at: nat, i: nat)
    requires at < 8 * |before| && i < 8 * |before| == 8 * |after|
    requires after[at / 8] == FlipBit(before[at / 8], at % 8)
    requires forall j :: 0 <= j < |before| && j != at / 8 ==> after[j] == before[j]
    ensures BitAt(after, i) <==> (if i == at then !BitAt(before, i) else BitAt(before, i))
  {
    if i / 8 == at / 8 {
      ToggleIsLocal(before[at / 8], at % 8, i % 8);
    }
  }

  /** Toggles one bit of the bitmap starting at the given byte; true when it was set. */
  method Switch(bytes: array<Byte>, start: nat, index: nat) returns (wasSet: bool)
    requires start + index / 8 < bytes.Length
    modifies bytes
    ensures wasSet == old(BitAt(bytes[..], 8 * start + index))
    ensures forall i :: 0 <= i < 8 * bytes.Length ==>
      BitAt(bytes[..], i) == (if i == 8 * start + index then !wasSet else old(BitAt(bytes[..], i)))
  {
    ghost var before := bytes[..];
    var at := start + index / 8;
    assert Pow2(8) == 256 by { assert Pow2(4) == 16; }
    ToggleStaysBelow(bytes[at], index % 8, 8);
    bytes[at] := FlipBit(bytes[at], index % 8);
    wasSet := !TestBit(bytes[at], index % 8);
    ToggleIsLocal(before[at], index % 8, index % 8);
    assert (8 * start + index) / 8 == at && (8 * start + index) % 8 == index % 8;
    forall i | 0 <= i < 8 * bytes.Length
      ensures BitAt(bytes[..], i) == (if i == 8 * start + index then !wasSet else BitAt(before, i))
    {
      SwitchedBit(before, bytes[..], 8 * start + index, i);
    }
  }
}
