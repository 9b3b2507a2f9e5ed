// UTF-8 and UTF-16 conversion (libs/unicode/convert.c): counting, writing and what they mean.
module Unicode {
  // `None`, and a null buffer, stand for a failed assertion or a read past the end.

  import opened Sequences

  type Byte = bv8
  type Unit = bv16

  predicate IsHigh(c: Unit) { 0xD800 <= c < 0xDC00 }
  predicate IsLow(c: Unit) { 0xDC00 <= c < 0xE000 }

  // The units that the encoder writes as one byte, or as at most two.
  predicate OneByte(c: Unit) { c < 0x7F }
  predicate TwoBytes(c: Unit) { c < 0x7FF }

  lemma HighIsWide(c: Unit)
    ensures IsHigh(c) ==> !OneByte(c) && !TwoBytes(c)
  {}

  // All that the source asks of the unit after a high surrogate.
  predicate MayFollow(c: Unit) { 0xDC00 <= c }

  // The C conversions to uint8_t and uint16_t.
  function ToByte(x: bv32): Byte { (x & 0xFF) as Byte }
  function ToUnit(x: bv32): Unit { (x & 0xFFFF) as Unit }

  function Prepend<T>(head: seq<T>, rest: Option<seq<T>>): Option<seq<T>> {
    if rest.Some? then Some(head + rest.value) else None
  }

  // ---- The bit layouts of section 3 of RFC 3629 ----

  function Head2(x: bv32): Byte { ToByte((x >> 6) | 0xC0) }
  function Head3(x: bv32): Byte { ToByte((x >> 12) | 0xE0) }
  function Head4(x: bv32): Byte { ToByte((x >> 18) | 0xF0) }
  function Tail0(x: bv32): Byte { ToByte((x & 0x3F) | 0x80) }
  function Tail6(x: bv32): Byte { ToByte(((x >> 6) & 0x3F) | 0x80) }
  function Tail12(x: bv32): Byte { ToByte(((x >> 12) & 0x3F) | 0x80) }

  function Form2(x: bv32): seq<Byte> { [Head2(x), Tail0(x)] }
  function Form3(x: bv32): seq<Byte> { [Head3(x), Tail6(x), Tail0(x)] }
  function Form4(x: bv32): seq<Byte> { [Head4(x), Tail12(x), Tail6(x), Tail0(x)] }

  // ---- UTF-16 to UTF-8 ----

  function UnitBytes(c: Unit): seq<Byte> {
    var x := c as bv32;
    if OneByte(c) then [ToByte(x)] else if TwoBytes(c) then Form2(x) else Form3(x)
  }

  function PairPoint(c: Unit, n: Unit): bv32 {
    ((((c as bv32) - 0xD800) << 10) | ((n as bv32) - 0xDC00)) + 0x10000
  }

  function Utf8(s: seq<Unit>): Option<seq<Byte>> {
    if s == [] then Some([])
    else if IsHigh(s[0]) then
      if |s| < 2 || !MayFollow(s[1]) then None else Prepend(Form4(PairPoint(s[0], s[1])), Utf8(s[2..]))
    else Prepend(UnitBytes(s[0]), Utf8(s[1..]))
  }

  // ---- UTF-8 to UTF-16 ----

  predicate Bit(c: Byte, mask: Byte) { c & mask != 0 }
  predicate IsTail(c: Byte) { c & 0xC0 == 0x80 }

  // The length of the sequence that `c` leads; 0 when the counting pass rejects it.
  function LeadLength(c: Byte): (k: nat)
    ensures k <= 4
  {
    if !Bit(c, 0x80) then 1
    else if !Bit(c, 0x40) then 0
    else if !Bit(c, 0x20) then 2
    else if !Bit(c, 0x10) then 3
    else if !Bit(c, 0x08) then 4 else 0
  }

  function Decode2(c: Byte, n: Byte): Unit {
    ToUnit((((c & 31) as bv32) << 6) | ((n & 63) as bv32))
  }

  function Decode3(c: Byte, n: Byte, nn: Byte): Unit {
    ToUnit((((c & 15) as bv32) << 12) | (((n & 63) as bv32) << 6) | ((nn & 63) as bv32))
  }

  // The subtraction wraps around when the four bytes hold less than 0x10000.
  function Decode4(c: Byte, n: Byte, nn: Byte, nnn: Byte): bv32 {
    ((((c & 7) as bv32) << 18) | (((n & 63) as bv32) << 12)
     | (((nn & 63) as bv32) << 6) | ((nnn & 63) as bv32)) - 0x10000
  }

  function HighOf(p: bv32): Unit { ToUnit(0xD800 | (p >> 10)) }
  function LowOf(p: bv32): Unit { ToUnit(0xDC00 | (p & 0x3FF)) }

  // What the sequence at the front of `b` stands for, once its length `k` is known.
  function Decoded(b: seq<Byte>, k: nat): Option<seq<Unit>>
    requires 1 <= k <= 4 && k <= |b|
  {
    if k == 1 then Some([b[0] as Unit])
    else if !IsTail(b[1]) then None
    else if k == 2 then Some([Decode2(b[0], b[1])])
    else if !IsTail(b[2]) then None
    else if k == 3 then Some([Decode3(b[0], b[1], b[2])])
    else if !IsTail(b[3]) then None
    else
      var p := Decode4(b[0], b[1], b[2], b[3]);
      Some([HighOf(p), LowOf(p)])
  }

  function Utf16(b: seq<Byte>): Option<seq<Unit>> {
    if b == [] then Some([])
    else
      var k := LeadLength(b[0]);
      if k == 0 || |b| < k then None
      else
        var d := Decoded(b, k);
        if d.None? then None else Prepend(d.value, Utf16(b[k..]))
  }

  // ---- What the decoder accepts and computes, by ranges and place values ----

  // Which bytes lead how many.
  lemma LeadRanges(c: Byte)
    ensures LeadLength(c) ==
      if c < 0x80 then 1 else if c < 0xC0 then 0 else if c < 0xE0 then 2 else if c < 0xF0 then 3
      else if c < 0xF8 then 4 else 0
    ensures IsTail(c) <==> 0x80 <= c < 0xC0
  {}

  // The payload of a lead byte and of the tails, added up by place values; every sequence is
  // accepted, shortest or not, and surrogates are decoded like other units.
  lemma PlaceValues(c: Byte, n: Byte, nn: Byte, nnn: Byte)
    requires IsTail(n) && IsTail(nn) && IsTail(nnn)
    ensures LeadLength(c) == 2 ==> Decode2(c, n) as bv32 == (c as bv32 - 0xC0) * 64 + (n as bv32 - 0x80)
    ensures LeadLength(c) == 3 ==>
      Decode3(c, n, nn) as bv32 == (c as bv32 - 0xE0) * 4096 + (n as bv32 - 0x80) * 64 + (nn as bv32 - 0x80)
    ensures LeadLength(c) == 4 ==>
      Decode4(c, n, nn, nnn) == (c as bv32 - 0xF0) * 0x40000 + (n as bv32 - 0x80) * 4096
                                + (nn as bv32 - 0x80) * 64 + (nnn as bv32 - 0x80) - 0x10000
  {
    LeadRanges(c);
    LeadRanges(n);
    LeadRanges(nn);
    LeadRanges(nnn);
    hide LeadLength, IsTail;
    if 0xC0 <= c < 0xE0 { PlaceValue2(c, n); }
    if 0xE0 <= c < 0xF0 { PlaceValue3(c, n, nn); }
    if 0xF0 <= c < 0xF8 { PlaceValue4(c, n, nn, nnn); }
    hide Decode2, Decode3, Decode4;
  }

  lemma PlaceValue2(c: Byte, n: Byte)
    requires 0xC0 <= c < 0xE0 && 0x80 <= n < 0xC0
    ensures Decode2(c, n) as bv32 == (c as bv32 - 0xC0) * 64 + (n as bv32 - 0x80)
  {}

  lemma PlaceValue3(c: Byte, n: Byte, nn: Byte)
    requires 0xE0 <= c < 0xF0 && 0x80 <= n < 0xC0 && 0x80 <= nn < 0xC0
    ensures Decode3(c, n, nn) as bv32 == (c as bv32 - 0xE0) * 4096 + (n as bv32 - 0x80) * 64 + (nn as bv32 - 0x80)
  {}

  lemma PlaceValue4(c: Byte, n: Byte, nn: Byte, nnn: Byte)
    requires 0xF0 <= c < 0xF8 && 0x80 <= n < 0xC0 && 0x80 <= nn < 0xC0 && 0x80 <= nnn < 0xC0
    ensures Decode4(c, n, nn, nnn) == (c as bv32 - 0xF0) * 0x40000 + (n as bv32 - 0x80) * 4096
                                      + (nn as bv32 - 0x80) * 64 + (nnn as bv32 - 0x80) - 0x10000
  {}

  // ---- Each layout is read back ----

  lemma Reads1(x: bv32)
    requires x < 0x80
    ensures LeadLength(ToByte(x)) == 1 && ToByte(x) as Unit == ToUnit(x)
  {}

  lemma TailBytes(x: bv32)
    ensures IsTail(Tail0(x)) && IsTail(Tail6(x)) && IsTail(Tail12(x))
  {}

  lemma Reads2(x: bv32)
    requires x < 0x800
    ensures LeadLength(Head2(x)) == 2 && Decode2(Head2(x), Tail0(x)) == ToUnit(x)
  {}

  lemma HeadOf3(x: bv32)
    requires x < 0x10000
    ensures LeadLength(Head3(x)) == 3
  {}

  lemma Reads3(x: bv32)
    requires x < 0x10000
    ensures Decode3(Head3(x), Tail6(x), Tail0(x)) == ToUnit(x)
  {}

  lemma HeadOf4(x: bv32)
    requires x < 0x110000
    ensures LeadLength(Head4(x)) == 4
  {}

  lemma Reads4(x: bv32)
    requires x < 0x110000
    ensures Decode4(Head4(x), Tail12(x), Tail6(x), Tail0(x)) == x - 0x10000
  {}

  // The units of the sequence `e`, wherever it stands.
  predicate Reads(e: seq<Byte>, d: seq<Unit>) {
    1 <= |e| <= 4 && LeadLength(e[0]) == |e| && Decoded(e, |e|) == Some(d)
  }

  lemma ReadsFirst(e: seq<Byte>, d: seq<Unit>, rest: seq<Byte>)
    requires Reads(e, d)
    ensures Utf16(e + rest) == Prepend(d, Utf16(rest))
  {
    hide LeadLength, IsTail, Decode2, Decode3, Decode4, HighOf, LowOf;
    var b := e + rest;
    assert b[|e|..] == rest;
    assert b[0] == e[0] && forall i :: 0 <= i < |e| ==> b[i] == e[i];
    assert Decoded(b, |e|) == Decoded(e, |e|);
  }

  lemma ReadsOne(x: bv32)
    ensures x < 0x80 ==> Reads([ToByte(x)], [ToUnit(x)])
    ensures x < 0x800 ==> Reads(Form2(x), [ToUnit(x)])
    ensures x < 0x10000 ==> Reads(Form3(x), [ToUnit(x)])
  {
    hide Head2, Head3, Tail0, Tail6, Tail12, ToByte, ToUnit, LeadLength, IsTail, Decode2, Decode3, Decode4;
    if x < 0x80 { Reads1(x); }
    if x < 0x800 { Reads2(x); }
    if x < 0x10000 { HeadOf3(x); Reads3(x); }
    TailBytes(x);
  }

  // The pair of units that stands for a code point from 0x10000 on.
  function Halves(p: bv32): (d: seq<Unit>)
    ensures |d| == 2
  {
    [HighOf(p - 0x10000), LowOf(p - 0x10000)]
  }

  lemma ReadsTwo(x: bv32)
    requires x < 0x110000
    ensures Reads(Form4(x), Halves(x))
  {
    hide Head4, Tail0, Tail6, Tail12, LeadLength, IsTail, Decode2, Decode3, Decode4, HighOf, LowOf;
    HeadOf4(x);
    Reads4(x);
    TailBytes(x);
  }

  // A high surrogate and a unit from 0xDC00 on make a code point, whose second half is
  // always a low surrogate: the pair comes back exactly when its second unit is one.
  lemma PairPointSplits(c: Unit, n: Unit)
    requires IsHigh(c) && MayFollow(n)
    ensures 0x10000 <= PairPoint(c, n) < 0x110000
    ensures Halves(PairPoint(c, n)) == [c, n] <==> IsLow(n)
  {
    hide PairPoint, HighOf, LowOf, IsHigh, IsLow, MayFollow;
    var h, l := HighOf(PairPoint(c, n) - 0x10000), LowOf(PairPoint(c, n) - 0x10000);
    PairHalves(c, n);
    assert [h, l][1] == l && [c, n][1] == n;
    assert IsLow(n) ==> [h, l] == [c, n];
  }

  lemma PairHalves(c: Unit, n: Unit)
    requires IsHigh(c) && MayFollow(n)
    ensures 0x10000 <= PairPoint(c, n) < 0x110000 && IsLow(LowOf(PairPoint(c, n) - 0x10000))
    ensures IsLow(n) ==> HighOf(PairPoint(c, n) - 0x10000) == c && LowOf(PairPoint(c, n) - 0x10000) == n
  {}

  ghost predicate WellFormed(s: seq<Unit>) {
    forall i :: 0 <= i < |s| && IsHigh(s[i]) ==> i + 1 < |s| && IsLow(s[i + 1])
  }

  lemma WellFormedHead(s: seq<Unit>)
    requires s != []
    ensures WellFormed(s) <==>
      if IsHigh(s[0]) then |s| >= 2 && IsLow(s[1]) && WellFormed(s[2..]) else WellFormed(s[1..])
  {
    var k := if IsHigh(s[0]) then 2 else 1;
    if k <= |s| {
      var t := s[k..];
      assert forall i :: 0 <= i < |t| ==> t[i] == s[i + k];
      assert forall i :: k <= i < |s| ==> s[i] == t[i - k];
      assert forall j :: k < j < |s| ==> s[j] == t[j - k];
    }
  }

  predicate ComesBack(s: seq<Unit>) {
    var e := Utf8(s);
    e.Some? && Utf16(e.value) == Some(s)
  }

  lemma UnitReads(c: Unit)
    ensures Reads(UnitBytes(c), [c])
  {
    hide ToByte, ToUnit, Form2, Form3, Reads;
    ReadsOne(c as bv32);
    UnitRange(c);
  }

  lemma UnitRange(c: Unit)
    ensures ToUnit(c as bv32) == c && c as bv32 < 0x10000
    ensures OneByte(c) ==> c as bv32 < 0x80
    ensures TwoBytes(c) ==> c as bv32 < 0x800
  {}

  lemma PairReads(c: Unit, n: Unit)
    requires IsHigh(c) && MayFollow(n)
    ensures Reads(Form4(PairPoint(c, n)), Halves(PairPoint(c, n)))
    ensures Halves(PairPoint(c, n)) == [c, n] <==> IsLow(n)
  {
    hide Reads, Form4, Halves, PairPoint, IsHigh, IsLow, MayFollow;
    PairPointSplits(c, n);
    ReadsTwo(PairPoint(c, n));
  }

  // A string comes back from UTF-8 exactly when each high surrogate is followed by a low one.
  lemma {:induction false} RoundTripIff(s: seq<Unit>)
    ensures ComesBack(s) <==> WellFormed(s)
  {
    hide UnitBytes, PairPoint, Halves, Form4, Reads, LeadLength, Decoded, IsHigh, IsLow, MayFollow, WellFormed;
    if s == [] {
      WellFormedEmpty(s);
      return;
    }
    WellFormedHead(s);
    if |s| >= 2 && IsLow(s[1]) { SurrogateOrder(s[1]); }
    if !IsHigh(s[0]) {
      RoundTripIff(s[1..]);
      UnitReads(s[0]);
      ChunkReturns(s, 1, UnitBytes(s[0]), [s[0]]);
    } else if |s| >= 2 && MayFollow(s[1]) {
      RoundTripIff(s[2..]);
      PairReads(s[0], s[1]);
      ChunkReturns(s, 2, Form4(PairPoint(s[0], s[1])), Halves(PairPoint(s[0], s[1])));
    }
  }

  lemma WellFormedEmpty(s: seq<Unit>)
    requires s == []
    ensures WellFormed(s)
  {}

  lemma ChunkReturns(s: seq<Unit>, k: nat, e: seq<Byte>, d: seq<Unit>)
    requires k <= |s| && |d| == k && Reads(e, d) && Utf8(s) == Prepend(e, Utf8(s[k..]))
    ensures ComesBack(s) <==> d == s[..k] && ComesBack(s[k..])
  {
    hide Reads;
    var t := s[k..];
    assert s == s[..k] + t;
    if Utf8(t).Some? {
      ReadsFirst(e, d, Utf8(t).value);
      var back := Utf16(Utf8(t).value);
      assert back.Some? ==> (d + back.value)[k..] == back.value && (d + back.value)[..k] == d;
    }
  }

  lemma EncodingInjective(s: seq<Unit>, t: seq<Unit>)
    requires WellFormed(s) && WellFormed(t) && Utf8(s) == Utf8(t)
    ensures s == t
  {
    RoundTripIff(s);
    RoundTripIff(t);
  }

  // ---- Against the standards: RFC 3629 (section 3) and RFC 2781 (section 2) ----

  predicate IsScalar(p: bv32) { p < 0xD800 || 0xE000 <= p < 0x110000 }

  type Scalar = p: bv32 | IsScalar(p) witness 0

  function StandardBytes(p: Scalar): (e: seq<Byte>)
    ensures e != []
  {
    if p < 0x80 then [ToByte(p)]
    else if p < 0x800 then Form2(p)
    else if p < 0x10000 then Form3(p)
    else Form4(p)
  }

  function StandardUnits(p: Scalar): seq<Unit> {
    if p < 0x10000 then [ToUnit(p)]
    else [ToUnit(0xD800 + ((p - 0x10000) >> 10)), ToUnit(0xDC00 + ((p - 0x10000) & 0x3FF))]
  }

  function StandardUtf8(text: seq<Scalar>): seq<Byte> {
    if text == [] then [] else StandardBytes(text[0]) + StandardUtf8(text[1..])
  }

  function StandardUtf16(text: seq<Scalar>): seq<Unit> {
    if text == [] then [] else StandardUnits(text[0]) + StandardUtf16(text[1..])
  }

  lemma ScalarHalves(p: bv32)
    requires 0x10000 <= p < 0x110000
    ensures ToUnit(0xD800 + ((p - 0x10000) >> 10)) == HighOf(p - 0x10000)
    ensures ToUnit(0xDC00 + ((p - 0x10000) & 0x3FF)) == LowOf(p - 0x10000)
    ensures IsHigh(HighOf(p - 0x10000)) && IsLow(LowOf(p - 0x10000))
    ensures PairPoint(HighOf(p - 0x10000), LowOf(p - 0x10000)) == p
  {}

  lemma StandardReads(p: Scalar)
    ensures Reads(StandardBytes(p), StandardUnits(p))
  {
    assert IsScalar(p);
    ReadsOne(p);
    if p >= 0x10000 {
      ScalarHalves(p);
      ReadsTwo(p);
    }
    hide ToByte, ToUnit, Form2, Form3, Form4, HighOf, LowOf, Reads;
  }

  // Every text in standard UTF-8 is read as the standard UTF-16 of the same text.
  lemma {:induction false} DecoderIsStandard(text: seq<Scalar>)
    ensures Utf16(StandardUtf8(text)) == Some(StandardUtf16(text))
  {
    hide StandardBytes, StandardUnits, LeadLength, Decoded, Reads;
    if text != [] {
      var p := text[0];
      StandardReads(p);
      ReadsFirst(StandardBytes(p), StandardUnits(p), StandardUtf8(text[1..]));
      DecoderIsStandard(text[1..]);
    }
  }

  // The two code points that the encoder writes one byte longer than RFC 3629 does.
  predicate Boundary(p: Scalar) { p == 0x7F || p == 0x7FF }

  lemma ScalarUnit(p: bv32)
    requires IsScalar(p) && p < 0x10000
    ensures !IsHigh(ToUnit(p)) && ToUnit(p) as bv32 == p
  {}

  lemma LeadDiffers()
    ensures Head2(0x7F) != ToByte(0x7F) && Head3(0x7FF) != Head2(0x7FF)
  {}

  // What the encoder writes for one code point.
  function OurBytes(p: Scalar): (e: seq<Byte>)
    ensures e != []
  {
    if p < 0x10000 then UnitBytes(ToUnit(p)) else Form4(p)
  }

  lemma ScalarEncodes(p: Scalar, rest: seq<Unit>)
    ensures Utf8(StandardUnits(p) + rest) == Prepend(OurBytes(p), Utf8(rest))
  {
    var u := StandardUnits(p);
    var s := u + rest;
    assert s[|u|..] == rest && s[0] == u[0];
    ScalarKind(p);
    hide StandardUnits, UnitBytes, ToUnit, PairPoint, IsHigh, MayFollow, Form4;
    if |u| == 2 {
      assert s[1] == u[1];
    }
  }

  lemma ScalarKind(p: Scalar)
    ensures var u := StandardUnits(p);
      if |u| == 1 then !IsHigh(u[0]) && OurBytes(p) == UnitBytes(u[0])
      else |u| == 2 && IsHigh(u[0]) && MayFollow(u[1]) && OurBytes(p) == Form4(PairPoint(u[0], u[1]))
  {
    assert IsScalar(p);
    if p < 0x10000 {
      ScalarUnit(p);
    } else {
      ScalarHalves(p);
      SurrogateOrder(LowOf(p - 0x10000));
    }
    hide ToUnit, UnitBytes, HighOf, LowOf, PairPoint, Form4, IsHigh, IsLow, MayFollow;
  }

  lemma ScalarRanges(p: Scalar)
    requires p < 0x10000
    ensures ToUnit(p) as bv32 == p
    ensures OneByte(ToUnit(p)) <==> p < 0x80 && !Boundary(p)
    ensures TwoBytes(ToUnit(p)) <==> p < 0x800 && p != 0x7FF
  {
    assert IsScalar(p);
  }

  lemma OursIsStandardIff(p: Scalar)
    ensures if Boundary(p) then OurBytes(p)[0] != StandardBytes(p)[0] else OurBytes(p) == StandardBytes(p)
  {
    hide Head2, Head3, Head4, Tail0, Tail6, Tail12, ToByte, ToUnit, IsHigh, IsScalar, OneByte, TwoBytes;
    if p < 0x10000 { ScalarRanges(p); }
    LeadDiffers();
  }

  lemma SurrogateOrder(n: Unit)
    requires IsLow(n)
    ensures MayFollow(n)
  {}

  ghost predicate NoBoundary(text: seq<Scalar>) {
    forall i :: 0 <= i < |text| ==> !Boundary(text[i])
  }

  lemma NoBoundaryHead(text: seq<Scalar>)
    requires text != []
    ensures NoBoundary(text) <==> !Boundary(text[0]) && NoBoundary(text[1..])
  {
    hide Boundary;
    var t := text[1..];
    assert forall i :: 1 <= i < |text| ==> text[i] == t[i - 1];
    assert forall i :: 0 <= i < |t| ==> t[i] == text[i + 1];
  }

  lemma NoBoundaryEmpty(text: seq<Scalar>)
    requires text == []
    ensures NoBoundary(text)
  {}

  lemma EqualParts<T>(e: seq<T>, x: seq<T>, f: seq<T>, y: seq<T>)
    requires e != [] && f != [] && (e == f || e[0] != f[0])
    ensures e + x == f + y <==> e == f && x == y
  {
    assert (e + x)[0] == e[0] && (f + y)[0] == f[0];
    assert (e + x)[|e|..] == x && (f + y)[|f|..] == y;
  }

  // The encoder accepts every standard UTF-16 text, and writes standard UTF-8 exactly when
  // neither boundary code point occurs in it.
  lemma {:induction false} EncoderIsStandardIff(text: seq<Scalar>)
    ensures Utf8(StandardUtf16(text)).Some?
    ensures Utf8(StandardUtf16(text)) == Some(StandardUtf8(text)) <==> NoBoundary(text)
  {
    hide OurBytes, StandardBytes, StandardUnits, Boundary, NoBoundary, Utf8;
    if text == [] {
      NothingLeft8(StandardUtf16(text));
      NoBoundaryEmpty(text);
    } else {
      var t := text[1..];
      EncoderIsStandardIff(t);
      ScalarEncodes(text[0], StandardUtf16(t));
      OursIsStandardIff(text[0]);
      NoBoundaryHead(text);
      EqualParts(OurBytes(text[0]), Utf8(StandardUtf16(t)).value, StandardBytes(text[0]), StandardUtf8(t));
    }
  }

  // ---- The counting passes ----

  function Plus(n: nat, r: Option<nat>): Option<nat> {
    if r.Some? then Some(n + r.value) else None
  }

  // What the counting pass for UTF-8 returns.
  function Size8(s: seq<Unit>): Option<nat> {
    if s == [] then Some(0)
    else
      var k := if IsHigh(s[0]) then 2 else 1;
      if k == 2 && (|s| < 2 || !MayFollow(s[1])) then None
      else
        var w := if OneByte(s[0]) then 1 else if TwoBytes(s[0]) then 2 else if k == 2 then 4 else 3;
        Plus(w, Size8(s[k..]))
  }

  // What the counting pass for UTF-16 returns. It steps over the tail bytes without
  // reading them, so it may step past the end.
  function Size16(b: seq<Byte>): Option<nat>
    decreases |b|
  {
    if b == [] then Some(0)
    else
      var k := LeadLength(b[0]);
      if k == 0 then None
      else
        Plus(if k == 4 then 2 else 1, Size16(if k < |b| then b[k..] else []))
  }

  lemma ChunkLengths(c: Unit, p: bv32)
    ensures |UnitBytes(c)| == if OneByte(c) then 1 else if TwoBytes(c) then 2 else 3
    ensures |Form4(p)| == 4
  {
    hide OneByte, TwoBytes, ToByte;
  }

  lemma {:induction false} Size8Agrees(s: seq<Unit>)
    ensures Size8(s) == if Utf8(s).Some? then Some(|Utf8(s).value|) else None
  {
    hide OneByte, TwoBytes, IsHigh, MayFollow, PairPoint, UnitBytes, Form4, Size8;
    Size8Step(s);
    if s == [] {
    } else if !IsHigh(s[0]) {
      Size8Agrees(s[1..]);
    } else if |s| >= 2 && MayFollow(s[1]) {
      Size8Agrees(s[2..]);
    }
    if s != [] { ChunkLengths(s[0], if |s| >= 2 then PairPoint(s[0], s[1]) else 0); }
  }

  lemma Size8Step(s: seq<Unit>)
    ensures s == [] ==> Size8(s) == Some(0)
    ensures s != [] && !IsHigh(s[0]) ==> Size8(s) == Plus(|UnitBytes(s[0])|, Size8(s[1..]))
    ensures s != [] && IsHigh(s[0]) ==>
      Size8(s) == if |s| < 2 || !MayFollow(s[1]) then None else Plus(4, Size8(s[2..]))
  {
    hide OneByte, TwoBytes, IsHigh, MayFollow, PairPoint, UnitBytes;
    if s != [] {
      HighIsWide(s[0]);
      ChunkLengths(s[0], 0);
    }
  }

  lemma {:induction false} Size16Agrees(b: seq<Byte>)
    requires Utf16(b).Some?
    ensures Size16(b) == Some(|Utf16(b).value|)
  {
    if b != [] {
      Size16Agrees(b[LeadLength(b[0])..]);
    }
  }

  // Up to the first byte that cannot lead, every sequence lies inside the text and has only
  // continuation bytes behind its first one.
  predicate TailsFit(b: seq<Byte>) {
    b == [] ||
    var k := LeadLength(b[0]);
    k == 0 || (k <= |b| && (forall j :: 1 <= j < k ==> IsTail(b[j])) && TailsFit(b[k..]))
  }

  // The writing pass stops where the counting pass does, and besides exactly where a sequence
  // is cut off or broken.
  lemma {:induction false} Size16MissesIff(b: seq<Byte>)
    ensures Utf16(b).Some? <==> Size16(b).Some? && TailsFit(b)
  {
    hide LeadLength, IsTail, Decode2, Decode3, Decode4, HighOf, LowOf;
    if b != [] {
      var k := LeadLength(b[0]);
      if 1 <= k <= |b| {
        TailsDecode(b, k);
        Size16MissesIff(b[k..]);
        NextSize16Of(b);
      }
    }
  }

  lemma TailsDecode(b: seq<Byte>, k: nat)
    requires 1 <= k <= 4 && k <= |b|
    ensures Decoded(b, k).Some? <==> forall j :: 1 <= j < k ==> IsTail(b[j])
  {
    hide IsTail, Decode2, Decode3, Decode4, HighOf, LowOf;
  }

  lemma NextSize16Of(b: seq<Byte>)
    requires b != [] && 1 <= LeadLength(b[0]) <= |b|
    ensures Size16(b).Some? <==> Size16(b[LeadLength(b[0])..]).Some?
  {
    hide LeadLength;
    var k := LeadLength(b[0]);
    assert k == |b| ==> b[k..] == [];
  }

  // Such a text: the sequence is cut off, and counted as one unit.
  lemma CountMayMissTheEnd()
    ensures Size16([0xE2, 0x82]) == Some(1) && Utf16([0xE2, 0x82]) == None
  {
    assert LeadLength(0xE2) == 3;
  }

  method CountAsUtf8(s: seq<Unit>) returns (r: Option<nat>)
    ensures r == Size8(s)
  {
    hide OneByte, TwoBytes, IsHigh, MayFollow;
    var len, i := 0, 0;
    assert s[0..] == s;
    while i < |s|
      invariant 0 <= i <= |s|
      invariant Size8(s) == Plus(len, Size8(s[i..]))
    {
      var c := s[i];
      ghost var was, at := s[i..], i;
      HighIsWide(c);
      if OneByte(c) {
      } else if TwoBytes(c) {
        len := len + 1;
      } else if IsHigh(c) {
        i := i + 1;
        if i >= |s| { return None; }
        var n := s[i];
        if !MayFollow(n) { return None; }
        len := len + 3;
      } else {
        len := len + 2;
      }
      i, len := i + 1, len + 1;
      assert was[i - at..] == s[i..];
    }
    return Some(len);
  }

  method CountAsUtf16(b: seq<Byte>) returns (r: Option<nat>)
    ensures r == Size16(b)
  {
    var len, i := 0, 0;
    while i < |b|
      invariant 0 <= i
      invariant Size16(b) == Plus(len, Size16(if i < |b| then b[i..] else []))
    {
      var c := b[i];
      ghost var j := i;
      if Bit(c, 0x80) {
        if !Bit(c, 0x40) { return None; }
        if !Bit(c, 0x20) {
          i := i + 1;
        } else if !Bit(c, 0x10) {
          i := i + 2;
        } else {
          if Bit(c, 0x08) { return None; }
          len := len + 1;
          i := i + 3;
        }
      }
      i, len := i + 1, len + 1;
      assert i < |b| ==> b[j..][i - j..] == b[i..];
    }
    return Some(len);
  }

  // ---- The writing passes ----

  // From index `len` on, `all` is what is still to be written.
  ghost predicate Left<T(!new)>(all: Option<seq<T>>, len: nat, rest: Option<seq<T>>) {
    (all.Some? <==> rest.Some?) && (all.Some? ==> len <= |all.value| && all.value[len..] == rest.value)
  }

  lemma WriteNext<T(!new)>(all: Option<seq<T>>, len: nat, e: seq<T>, rest: Option<seq<T>>)
    requires Left(all, len, Prepend(e, rest))
    ensures Left(all, len + |e|, rest)
    ensures all.Some? ==> len + |e| <= |all.value| && forall j :: len <= j < len + |e| ==> all.value[j] == e[j - len]
  {
    if rest.Some? {
      assert all.value == all.value[..len] + (e + rest.value);
    }
  }

  ghost predicate At8(s: seq<Unit>, i: nat, len: nat)
    requires i <= |s|
  {
    Left(Utf8(s), len, Utf8(s[i..]))
  }

  method ToUtf8(s: seq<Unit>) returns (r: array?<Byte>)
    ensures r == null <==> Utf8(s).None?
    ensures r != null ==> fresh(r) && Utf8(s) == Some(r[..])
  {
    hide Head2, Head3, Head4, Tail0, Tail6, Tail12, ToByte, OneByte, TwoBytes, IsHigh, MayFollow, PairPoint, At8, Utf8, Size8;
    var expected := CountAsUtf8(s);
    Size8Agrees(s);
    if expected.None? { return null; }
    var result := new Byte[expected.value];
    var len, i := 0, 0;
    ghost var all := Utf8(s).value;
    Start8(s);
    while i < |s|
      invariant 0 <= i <= |s| && 0 <= len <= result.Length
      invariant At8(s, i, len)
      invariant forall j :: 0 <= j < len ==> result[j] == all[j]
    {
      var c := s[i];
      HighIsWide(c);
      Next8(s, i, len);
      var x := c as bv32;
      if OneByte(c) {
        result[len] := ToByte(x);
      } else if TwoBytes(c) {
        result[len] := Head2(x);
        len := len + 1;
        result[len] := Tail0(x);
      } else if IsHigh(c) {
        i := i + 1;
        var n := s[i];
        var p := PairPoint(c, n);
        result[len] := Head4(p);
        len := len + 1;
        result[len] := Tail12(p);
        len := len + 1;
        result[len] := Tail6(p);
        len := len + 1;
        result[len] := Tail0(p);
      } else {
        result[len] := Head3(x);
        len := len + 1;
        result[len] := Tail6(x);
        len := len + 1;
        result[len] := Tail0(x);
      }
      i, len := i + 1, len + 1;
    }
    End8(s, i, len);
    assert len == expected.value;
    assert result[..] == all;
    return result;
  }

  lemma Start8(s: seq<Unit>)
    ensures At8(s, 0, 0)
  {
    assert s[0..] == s;
  }

  lemma End8(s: seq<Unit>, i: nat, len: nat)
    requires i == |s| && At8(s, i, len)
    ensures Utf8(s).Some? && |Utf8(s).value| == len
  {
    assert s[i..] == [];
  }

  lemma NothingLeft8(s: seq<Unit>)
    requires s == []
    ensures Utf8(s) == Some([])
  {}

  lemma LeftAtStart<T(!new)>(all: Option<seq<T>>)
    ensures Left(all, 0, all)
  {}

  lemma LeftAtEnd<T(!new)>(all: Option<seq<T>>, len: nat, rest: Option<seq<T>>)
    requires Left(all, len, rest) && rest == Some([])
    ensures all.Some? && |all.value| == len
  {}

  // The bytes that the character at `i` leads to stand in the result from `len` on.
  lemma Next8(s: seq<Unit>, i: nat, len: nat)
    requires i < |s| && Utf8(s).Some? && At8(s, i, len)
    ensures IsHigh(s[i]) ==> i + 1 < |s|
    ensures var all, x := Utf8(s).value, s[i] as bv32;
      if IsHigh(s[i]) then
        var p := PairPoint(s[i], s[i + 1]);
        Holds(all, len, 4, Head4(p), Tail12(p), Tail6(p), Tail0(p)) && At8(s, i + 2, len + 4)
      else if OneByte(s[i]) then Holds(all, len, 1, ToByte(x), 0, 0, 0) && At8(s, i + 1, len + 1)
      else if TwoBytes(s[i]) then Holds(all, len, 2, Head2(x), Tail0(x), 0, 0) && At8(s, i + 1, len + 2)
      else Holds(all, len, 3, Head3(x), Tail6(x), Tail0(x), 0) && At8(s, i + 1, len + 3)
  {
    hide IsHigh, MayFollow, PairPoint, ToByte, Head2, Head3, Head4, Tail0, Tail6, Tail12, OneByte, TwoBytes, At8, Holds, Utf8;
    PresentAt8(s, i, len);
    if IsHigh(s[i]) {
      WriteAt8(s, i, 2, len, Form4(PairPoint(s[i], s[i + 1])));
    } else {
      WriteAt8(s, i, 1, len, UnitBytes(s[i]));
    }
  }

  lemma WriteAt8(s: seq<Unit>, i: nat, k: nat, len: nat, e: seq<Byte>)
    requires i + k <= |s| && 1 <= |e| <= 4 && Utf8(s).Some? && At8(s, i, len)
    requires Utf8(s[i..]) == Prepend(e, Utf8(s[i + k..]))
    ensures At8(s, i + k, len + |e|)
    ensures Holds(Utf8(s).value, len, |e|, e[0], if |e| > 1 then e[1] else 0,
                  if |e| > 2 then e[2] else 0, if |e| > 3 then e[3] else 0)
  {
    hide Utf8;
    WriteNext(Utf8(s), len, e, Utf8(s[i + k..]));
  }

  lemma PresentAt8(s: seq<Unit>, i: nat, len: nat)
    requires i < |s| && Utf8(s).Some? && At8(s, i, len)
    ensures IsHigh(s[i]) ==> i + 1 < |s| && Utf8(s[i..]) == Prepend(Form4(PairPoint(s[i], s[i + 1])), Utf8(s[i + 2..]))
    ensures !IsHigh(s[i]) ==> Utf8(s[i..]) == Prepend(UnitBytes(s[i]), Utf8(s[i + 1..]))
  {
    hide IsHigh, MayFollow, PairPoint, UnitBytes, Form4;
    var was := s[i..];
    assert Utf8(was).Some?;
    assert was[1..] == s[i + 1..] && (|was| >= 2 ==> was[2..] == s[i + 2..]);
  }

  // The first `k` of the four bytes stand in `all` from `at` on.
  predicate Holds(all: seq<Byte>, at: nat, k: nat, a: Byte, b: Byte, c: Byte, d: Byte) {
    at + k <= |all|
    && (k >= 1 ==> all[at] == a) && (k >= 2 ==> all[at + 1] == b)
    && (k >= 3 ==> all[at + 2] == c) && (k >= 4 ==> all[at + 3] == d)
  }

  // The bytes from `i` on begin a sequence that the decoder accepts.
  predicate Sound(b: seq<Byte>, i: nat)
    requires i < |b|
  {
    var k := LeadLength(b[i]);
    k != 0 && i + k <= |b|
      && (k >= 2 ==> IsTail(b[i + 1])) && (k >= 3 ==> IsTail(b[i + 2])) && (k >= 4 ==> IsTail(b[i + 3]))
  }

  function Chunk16(b: seq<Byte>, i: nat): (d: seq<Unit>)
    requires i < |b| && Sound(b, i)
  {
    match LeadLength(b[i])
    case 1 => [b[i] as Unit]
    case 2 => [Decode2(b[i], b[i + 1])]
    case 3 => [Decode3(b[i], b[i + 1], b[i + 2])]
    case _ =>
      var p := Decode4(b[i], b[i + 1], b[i + 2], b[i + 3]);
      [HighOf(p), LowOf(p)]
  }

  lemma Next16(b: seq<Byte>, i: nat, len: nat)
    requires i < |b| && Left(Utf16(b), len, Utf16(b[i..]))
    ensures Utf16(b).Some? ==> Sound(b, i)
    ensures Sound(b, i) ==> var d := Chunk16(b, i);
      Left(Utf16(b), len + |d|, Utf16(b[i + LeadLength(b[i])..]))
      && (Utf16(b).Some? ==> len + |d| <= |Utf16(b).value|
                             && forall j :: len <= j < len + |d| ==> Utf16(b).value[j] == d[j - len])
  {
    hide LeadLength, IsTail, Decode2, Decode3, Decode4, HighOf, LowOf, Left, Chunk16, Utf16;
    ChunkAt(b, i);
    if Sound(b, i) {
      WriteNext(Utf16(b), len, Chunk16(b, i), Utf16(b[i + LeadLength(b[i])..]));
    } else {
      LeftFails(Utf16(b), len, Utf16(b[i..]));
    }
  }

  lemma LeftFails<T(!new)>(all: Option<seq<T>>, len: nat, rest: Option<seq<T>>)
    requires Left(all, len, rest)
    ensures rest.None? ==> all.None?
  {}

  // One step of the decoder, at an index.
  lemma ChunkAt(b: seq<Byte>, i: nat)
    requires i < |b|
    ensures if Sound(b, i) then Utf16(b[i..]) == Prepend(Chunk16(b, i), Utf16(b[i + LeadLength(b[i])..]))
            else Utf16(b[i..]) == None
  {
    hide LeadLength, IsTail, Decode2, Decode3, Decode4, HighOf, LowOf, Utf16;
    var was, k := b[i..], LeadLength(b[i]);
    Utf16Step(was);
    if Sound(b, i) {
      assert was[k..] == b[i + k..];
      assert Decoded(was, k) == Some(Chunk16(b, i));
    }
  }

  lemma Utf16Step(b: seq<Byte>)
    requires b != []
    ensures var k := LeadLength(b[0]);
      if k == 0 || |b| < k || Decoded(b, k).None? then Utf16(b) == None
      else Utf16(b) == Prepend(Decoded(b, k).value, Utf16(b[k..]))
  {
    hide LeadLength, Decoded;
  }

  lemma NextSize16(b: seq<Byte>, i: nat)
    requires i < |b| && Size16(b[i..]).Some?
    ensures var k := LeadLength(b[i]);
      k != 0 && (i + k <= |b| ==> Size16(b[i..]) == Plus(if k == 4 then 2 else 1, Size16(b[i + k..])))
  {
    hide LeadLength;
    var k := LeadLength(b[i]);
    if i + k <= |b| {
      assert b[i..][k..] == b[i + k..];
      assert i + k == |b| ==> b[i + k..] == [];
    }
  }

  // The state of the writing pass at index `i`: what is left of the result and of the count.
  ghost predicate At16(b: seq<Byte>, i: nat, len: nat, expected: nat)
    requires i <= |b|
  {
    Left(Utf16(b), len, Utf16(b[i..])) && Plus(len, Size16(b[i..])) == Some(expected)
  }

  // `d` stands in `all` at `at`, and with `k == 2` the second unit behind it.
  predicate Holds16(all: Option<seq<Unit>>, at: nat, k: nat, d: Unit, e: Unit) {
    all.Some? ==> 1 <= k && at + k <= |all.value| && all.value[at] == d && (k == 2 ==> all.value[at + 1] == e)
  }

  lemma Round16(b: seq<Byte>, i: nat, len: nat, expected: nat)
    requires i < |b| && At16(b, i, len, expected)
    ensures LeadLength(b[i]) != 0 && (Utf16(b).Some? ==> Sound(b, i))
    ensures Sound(b, i) ==>
      var k := LeadLength(b[i]);
      var w := if k == 4 then 2 else 1;
      len + w <= expected && At16(b, i + k, len + w, expected)
      && (k == 1 ==> Holds16(Utf16(b), len, 1, b[i] as Unit, 0))
      && (k == 2 ==> Holds16(Utf16(b), len, 1, Decode2(b[i], b[i + 1]), 0))
      && (k == 3 ==> Holds16(Utf16(b), len, 1, Decode3(b[i], b[i + 1], b[i + 2]), 0))
      && (k == 4 ==> var p := Decode4(b[i], b[i + 1], b[i + 2], b[i + 3]);
                     Holds16(Utf16(b), len, 2, HighOf(p), LowOf(p)))
  {
    hide LeadLength, IsTail, Decode2, Decode3, Decode4, HighOf, LowOf, Left, Utf16, Size16;
    Next16(b, i, len);
    NextSize16(b, i);
  }

  lemma Start16(b: seq<Byte>, expected: nat)
    requires Size16(b) == Some(expected)
    ensures At16(b, 0, 0, expected)
  {
    assert b[0..] == b;
  }

  lemma End16(b: seq<Byte>, i: nat, len: nat, expected: nat)
    requires i == |b| && At16(b, i, len, expected)
    ensures len == expected && Utf16(b).Some? && |Utf16(b).value| == len
  {
    NothingLeft16(b[i..]);
    LeftAtEnd(Utf16(b), len, Utf16(b[i..]));
  }

  method ToUtf16(b: seq<Byte>) returns (r: array?<Unit>)
    ensures r == null <==> Utf16(b).None?
    ensures r != null ==> fresh(r) && Utf16(b) == Some(r[..])
  {
    hide Bit, IsTail, Decode2, Decode3, Decode4, HighOf, LowOf, At16, Utf16, Size16;
    var expected := CountAsUtf16(b);
    if expected.None? {
      if Utf16(b).Some? { Size16Agrees(b); }
      return null;
    }
    var result := new Unit[expected.value];
    var len, i := 0, 0;
    ghost var all := Utf16(b);
    Start16(b, expected.value);
    while i < |b|
      invariant 0 <= i <= |b| && 0 <= len <= result.Length
      invariant At16(b, i, len, expected.value)
      invariant all.Some? ==> len <= |all.value| && forall j :: 0 <= j < len ==> result[j] == all.value[j]
    {
      var c := b[i];
      Round16(b, i, len, expected.value);
      if !Bit(c, 0x80) {
        result[len] := c as Unit;
      } else {
        if !Bit(c, 0x20) {
          i := i + 1;
          if i >= |b| { return null; }
          var n := b[i];
          if !IsTail(n) { return null; }
          result[len] := Decode2(c, n);
        } else if !Bit(c, 0x10) {
          i := i + 2;
          if i >= |b| { return null; }
          var n, nn := b[i - 1], b[i];
          if !(IsTail(n) && IsTail(nn)) { return null; }
          result[len] := Decode3(c, n, nn);
        } else {
          i := i + 3;
          if i >= |b| { return null; }
          var n, nn, nnn := b[i - 2], b[i - 1], b[i];
          if !(IsTail(n) && IsTail(nn) && IsTail(nnn)) { return null; }
          var p := Decode4(c, n, nn, nnn);
          result[len] := HighOf(p);
          len := len + 1;
          result[len] := LowOf(p);
        }
      }
      i, len := i + 1, len + 1;
    }
    End16(b, i, len, expected.value);
    assert result[..] == all.value;
    return result;
  }

  lemma NothingLeft16(b: seq<Byte>)
    requires b == []
    ensures Utf16(b) == Some([]) && Size16(b) == Some(0)
  {}
}
