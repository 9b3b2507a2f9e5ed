// How a number (S, N, K), meaning S * 10^(N-K) with S of K digits, is laid out as text
// (libs/js/conversion.c, the number branch of js_toString).
//
// The text is specified by its parts and read back by an independent reader of decimal literals;
// the buffer is filled branch by branch, the digits from right to left, and is proved to hold
// that text.
module NumberText {
  import opened Sequences
  import opened Numerals
  import opened Division

  // ---- An independent reader of decimal literals: section 9.3.1 of ECMA-262 ----

  datatype Decimal = Decimal(neg: bool, mantissa: nat, exponent: int)

  function ReadExponent(s: string): Option<int> {
    if s == "" then Some(0)
    else if |s| >= 3 && s[0] == 'e' && (s[1] == '+' || s[1] == '-') && Run(s[2..]) == |s| - 2 then
      var v: int := Value(10, s[2..]);
      Some(if s[1] == '-' then -v else v)
    else None
  }

  // What follows the whole part.
  function ReadRest(neg: bool, whole: string, u: string): Option<Decimal> {
    var point := u != "" && u[0] == '.';
    var b := if point then Run(u[1..]) else 0;
    var fraction := if point then u[1..1 + b] else "";
    var e := ReadExponent(if point then u[1 + b..] else u);
    if (point && b == 0) || e.None? then None
    else Some(Decimal(neg, Value(10, whole + fraction), e.value - b))
  }

  function ReadUnsigned(neg: bool, t: string): Option<Decimal> {
    var a := Run(t);
    if a == 0 then None else ReadRest(neg, t[..a], t[a..])
  }

  function Read(s: string): Option<Decimal> {
    if s != "" && s[0] == '-' then ReadUnsigned(true, s[1..]) else ReadUnsigned(false, s)
  }

  // m1 * 10^e1 == m2 * 10^e2.
  predicate SameValue(m1: nat, e1: int, m2: nat, e2: int) {
    if e1 >= e2 then m1 * Power(10, e1 - e2) == m2 else m1 == m2 * Power(10, e2 - e1)
  }

  predicate Denotes(text: string, neg: bool, m: nat, e: int) {
    var d := Read(text);
    d.Some? && d.value.neg == neg && SameValue(d.value.mantissa, d.value.exponent, m, e)
  }

  // ---- Reading back what is put together from its parts ----

  function Sign(neg: bool): string { if neg then "-" else "" }

  function Assemble(neg: bool, whole: string, fraction: string, tail: string): string {
    Sign(neg) + (whole + (Point(fraction) + tail))
  }

  function Point(fraction: string): string { if fraction == "" then "" else "." + fraction }

  lemma NotDigits()
    ensures !IsDigit('e') && !IsDigit('.') && !IsDigit('-')
  {}

  lemma ReadsWhole(neg: bool, whole: string, u: string)
    requires AllDigits(whole) && whole != "" && (u == "" || !IsDigit(u[0]))
    ensures ReadUnsigned(neg, whole + u) == ReadRest(neg, whole, u)
  {
    hide Value, ReadRest, IsDigit, AllDigits, Run;
    RunIs(whole, u);
    assert (whole + u)[..|whole|] == whole && (whole + u)[|whole|..] == u;
  }

  lemma ReadsPlain(neg: bool, whole: string, tail: string)
    requires (tail == "" || tail[0] == 'e') && ReadExponent(tail).Some?
    ensures ReadRest(neg, whole, tail) == Some(Decimal(neg, Value(10, whole), ReadExponent(tail).value))
  {
    hide Value, ReadExponent, Run;
    assert whole + "" == whole;
  }

  lemma ReadsPointed(neg: bool, whole: string, fraction: string, tail: string)
    requires AllDigits(fraction) && fraction != ""
    requires (tail == "" || tail[0] == 'e') && ReadExponent(tail).Some?
    ensures ReadRest(neg, whole, Point(fraction) + tail)
         == Some(Decimal(neg, Value(10, whole + fraction), ReadExponent(tail).value - |fraction|))
  {
    hide Value, ReadExponent, IsDigit, Run, AllDigits;
    var u := Point(fraction) + tail;
    NotDigits();
    RunIs(fraction, tail);
    assert u[1..] == fraction + tail;
    assert u[1..1 + |fraction|] == fraction;
    assert u[1 + |fraction|..] == tail;
  }

  lemma ReadsSigned(neg: bool, t: string)
    requires t != "" && IsDigit(t[0])
    ensures Read(Sign(neg) + t) == ReadUnsigned(neg, t)
  {
    hide ReadUnsigned;
    assert (Sign(neg) + t)[|Sign(neg)|..] == t;
  }

  lemma ReadsAssembled(neg: bool, whole: string, fraction: string, tail: string)
    requires AllDigits(whole) && AllDigits(fraction) && whole != ""
    requires (tail == "" || tail[0] == 'e') && ReadExponent(tail).Some?
    ensures Read(Assemble(neg, whole, fraction, tail))
         == Some(Decimal(neg, Value(10, whole + fraction), ReadExponent(tail).value - |fraction|))
  {
    hide Value, ReadExponent, ReadUnsigned, ReadRest, IsDigit, Sign, Read, AllDigits, Point;
    var u := Point(fraction) + tail;
    PointStart(fraction, tail);
    if fraction == "" {
      assert whole + fraction == whole;
      ReadsPlain(neg, whole, tail);
    } else {
      ReadsPointed(neg, whole, fraction, tail);
    }
    ReadsWhole(neg, whole, u);
    DigitFirst(whole, u);
    ReadsSigned(neg, whole + u);
  }

  lemma DigitFirst(whole: string, u: string)
    requires AllDigits(whole) && whole != ""
    ensures IsDigit((whole + u)[0])
  {}

  lemma PointStart(fraction: string, tail: string)
    requires tail == "" || tail[0] == 'e'
    ensures var u := Point(fraction) + tail; (u == "" || !IsDigit(u[0])) && (fraction == "" ==> u == tail)
  {
  }

  // ---- The layout ----

  function CountLen(n: nat): nat {
    if n >= 1000 then 4 else if n >= 100 then 3 else if n >= 10 then 2 else 1
  }

  function Exponent(e: int): string {
    var a := if e < 0 then -e else e;
    (if e < 0 then "e-" else "e+") + Digits(10, a, CountLen(a), false)
  }

  // Between -6 and 0 the offsets use N where -N is meant, so the digits land on the
  // leading "0.", or outside the buffer: then there is no text.
  function Misplaced(neg: bool, d: string, n: int): Option<string>
    requires -6 < n < 0 && d != ""
  {
    if n == -1 then Some("0" + d)
    else if n == -2 && |d| >= 2 then Some(d)
    else if n == -3 && neg && |d| >= 3 then Some(d[1..])
    else None
  }

  function Layout(neg: bool, s: nat, n: int, k: nat): Option<string>
    requires k >= 1
  {
    var d := Digits(10, s, k, false);
    if k <= n <= 21 then Some(Assemble(neg, d + Fill('0', n - k), "", ""))
    else if 0 < n <= 21 then Some(Assemble(neg, d[..n], d[n..], ""))
    else if n == 0 then Some(Assemble(neg, "0", d, ""))
    else if -6 < n < 0 then
      var t := Misplaced(neg, d, n);
      if t.Some? then Some(Sign(neg) + t.value) else None
    else Some(Assemble(neg, d[..1], d[1..], Exponent(n - 1)))
  }

  lemma CountLenIsEnough(a: nat)
    requires a <= 9999
    ensures a < Power(10, CountLen(a))
  {
    assert Power(10, 1) == 10;
    assert Power(10, 2) == 10 * Power(10, 1);
    assert Power(10, 3) == 10 * Power(10, 2);
    assert Power(10, 4) == 10 * Power(10, 3);
  }

  lemma ExponentReads(e: int)
    requires -9999 <= e <= 9999
    ensures var t := Exponent(e); t[0] == 'e' && ReadExponent(t) == Some(e)
  {
    var a := if e < 0 then -e else e;
    var d := Digits(10, a, CountLen(a), false);
    var t := Exponent(e);
    assert t[2..] == d && d + "" == d;
    DigitsAreDigits(a, CountLen(a), false);
    RunIs(d, "");
    CountLenIsEnough(a);
    ValueOfDigits(10, a, CountLen(a), false);
  }

  // ---- The layout denotes the number, except between -6 and 0 ----

  predicate Normal(s: nat, k: nat) {
    k >= 1 && Power(10, k - 1) <= s < Power(10, k)
  }

  lemma Parts(s: nat, k: nat)
    requires Normal(s, k)
    ensures var d := Digits(10, s, k, false); AllDigits(d) && Value(10, d) == s
  {
    DigitsAreDigits(s, k, false);
    ValueOfDigits(10, s, k, false);
  }

  // Any of the parts, read back, is the number.
  lemma AssembledDenotes(neg: bool, whole: string, fraction: string, tail: string, s: nat, e: int, zeros: nat)
    requires AllDigits(whole) && AllDigits(fraction) && whole != ""
    requires (tail == "" || tail[0] == 'e') && ReadExponent(tail).Some?
    requires Value(10, whole + fraction) == s * Power(10, zeros)
    requires ReadExponent(tail).value - |fraction| == e - zeros
    ensures Denotes(Assemble(neg, whole, fraction, tail), neg, s, e)
  {
    hide Value, ReadExponent, Read;
    ReadsAssembled(neg, whole, fraction, tail);
    if zeros == 0 { assert Power(10, 0) == 1; }
  }

  lemma IntegerDenotes(neg: bool, s: nat, n: int, k: nat)
    requires Normal(s, k) && k <= n
    ensures Denotes(Assemble(neg, Digits(10, s, k, false) + Fill('0', n - k), "", ""), neg, s, n - k)
  {
    hide Digits, Denotes, Value, Read, Power;
    var d := Digits(10, s, k, false);
    Parts(s, k);
    ZerosAreWorthNothing(10, n - k);
    ValueOfSum(10, d, Fill('0', n - k));
    assert d + Fill('0', n - k) + "" == d + Fill('0', n - k);
    AssembledDenotes(neg, d + Fill('0', n - k), "", "", s, n - k, n - k);
  }

  lemma SplitDenotes(neg: bool, s: nat, k: nat, at: nat, tail: string, e: int)
    requires Normal(s, k) && 0 < at <= k
    requires (tail == "" || tail[0] == 'e') && ReadExponent(tail) == Some(e)
    ensures var d := Digits(10, s, k, false); Denotes(Assemble(neg, d[..at], d[at..], tail), neg, s, e - (k - at))
  {
    hide Digits, Denotes, Value, Read, ReadExponent;
    var d := Digits(10, s, k, false);
    Parts(s, k);
    assert d[..at] + d[at..] == d;
    assert Power(10, 0) == 1;
    AssembledDenotes(neg, d[..at], d[at..], tail, s, e - (k - at), 0);
  }

  lemma FractionDenotes(neg: bool, s: nat, k: nat)
    requires Normal(s, k)
    ensures Denotes(Assemble(neg, "0", Digits(10, s, k, false), ""), neg, s, 0 - k)
  {
    hide Digits, Denotes, Value, Read;
    var d := Digits(10, s, k, false);
    Parts(s, k);
    ValueOfSum(10, "0", d);
    ZerosAreWorthNothing(10, 1);
    assert Fill('0', 1) == "0";
    assert Power(10, 0) == 1;
    AssembledDenotes(neg, "0", d, "", s, 0 - k, 0);
  }

  lemma LayoutDenotes(neg: bool, s: nat, n: int, k: nat)
    requires Normal(s, k) && -9998 <= n <= 10000 && !(-6 < n < 0)
    ensures Layout(neg, s, n, k).Some? && Denotes(Layout(neg, s, n, k).value, neg, s, n - k)
  {
    hide Digits, Denotes, Exponent, ReadExponent, Assemble;
    if k <= n <= 21 {
      IntegerDenotes(neg, s, n, k);
    } else if 0 < n <= 21 {
      EmptyExponent();
      SplitDenotes(neg, s, k, n, "", 0);
    } else if n == 0 {
      FractionDenotes(neg, s, k);
    } else {
      ExponentReads(n - 1);
      SplitDenotes(neg, s, k, 1, Exponent(n - 1), n - 1);
    }
  }

  lemma EmptyExponent()
    ensures ReadExponent("") == Some(0)
  {}

  // A text without point and exponent is worth at least 1, or nothing.
  lemma PlainDigitsDiffer(m: nat, s: nat, n: int, k: nat)
    requires Normal(s, k) && n < 0
    ensures !SameValue(m, 0, s, n - k)
  {
    PowerSum(10, k, -n);
    if m > 0 {
      Scale(1, m, Power(10, k - n));
      Scale(1, Power(10, -n), Power(10, k));
    }
  }

  lemma PlainExponent(neg: bool, d: string)
    requires AllDigits(d)
    ensures Read(Sign(neg) + d).Some? ==> Read(Sign(neg) + d).value.exponent == 0
  {
    if d == "" {
      assert Sign(neg) + d == Sign(neg);
      assert neg ==> Sign(neg)[1..] == "";
    } else {
      assert Assemble(neg, d, "", "") == Sign(neg) + d;
      ReadsAssembled(neg, d, "", "");
    }
  }

  lemma LayoutMisses(neg: bool, s: nat, n: int, k: nat)
    requires Normal(s, k) && -6 < n < 0
    ensures Layout(neg, s, n, k).Some? ==> !Denotes(Layout(neg, s, n, k).value, neg, s, n - k)
  {
    var d := Digits(10, s, k, false);
    Parts(s, k);
    var text := Layout(neg, s, n, k);
    if text.Some? {
      PlainExponent(neg, Misplaced(neg, d, n).value);
      if Read(text.value).Some? { PlainDigitsDiffer(Read(text.value).value.mantissa, s, n, k); }
    }
  }

  // For all numbers whose exponent has at most four digits: the text is there and denotes
  // the number exactly when N is not one of -5 to -1.
  lemma LayoutDenotesIff(neg: bool, s: nat, n: int, k: nat)
    requires Normal(s, k) && -9998 <= n <= 10000
    ensures (Layout(neg, s, n, k).Some? && Denotes(Layout(neg, s, n, k).value, neg, s, n - k))
      <==> !(-6 < n < 0)
  {
    if -6 < n < 0 { LayoutMisses(neg, s, n, k); } else { LayoutDenotes(neg, s, n, k); }
  }

  // ---- The buffer ----

  // The loops that put the digits of `s` at `at + lo` to `at + hi - 1`, last digit first.
  method PutDigits(str: array<char>, at: int, lo: nat, hi: nat, s: Long) returns (rest: Long)
    requires lo <= hi && 0 <= at + lo && at + hi <= str.Length
    modifies str
    ensures rest == Over(s, Power(10, hi - lo))
    ensures str[at + lo..at + hi] == Digits(10, s, hi - lo, false)
    ensures forall j :: 0 <= j < str.Length && !(at + lo <= j < at + hi) ==> str[j] == old(str[j])
  {
    hide Digits, Over, Last, Power, DigitChar;
    rest := s;
    var i := hi;
    OverAtStart(s);
    while i > lo
      invariant lo <= i <= hi
      invariant rest == Over(s, Power(10, hi - i))
      invariant str[at + i..at + hi] == Digits(10, s, hi - i, false)
      invariant forall j :: 0 <= j < str.Length && !(at + i <= j < at + hi) ==> str[j] == old(str[j])
    {
      i := i - 1;
      DigitsStep(s, hi - 1 - i);
      var digit;
      rest, digit := Div64(rest, 10);
      ghost var tail := str[at + i + 1..at + hi];
      str[at + i] := '0' + digit as char;
      assert str[at + i..at + hi] == [str[at + i]] + tail;
    }
  }

  lemma OverAtStart(s: nat)
    ensures Power(10, 0) == 1 && Over(s, 1) == s && Digits(10, s, 0, false) == ""
  {}

  lemma DigitsStep(s: nat, k: nat)
    ensures Over(Over(s, Power(10, k)), 10) == Over(s, Power(10, k + 1))
    ensures Last(Over(s, Power(10, k)), 10) < 10
    ensures Digits(10, s, k + 1, false)
         == ['0' + Last(Over(s, Power(10, k)), 10) as char] + Digits(10, s, k, false)
  {
    var q := Over(s, Power(10, k));
    DivideTwice(s, Power(10, k), 10);
    DigitsSplit(10, s, 1, k, false);
    assert Digits(10, q, 1, false) == Digits(10, Over(q, 10), 0, false) + [DigitChar(Last(q, 10), false)];
  }

  lemma HeadDigits(s: nat, j: nat, k: nat)
    requires j <= k && s < Power(10, k)
    ensures var d, q := Digits(10, s, k, false), Over(s, Power(10, k - j));
      d[j..] == Digits(10, s, k - j, false) && d[..j] == Digits(10, q, j, false) && q < Power(10, j)
  {
    hide Digits, Over, Last, Power;
    DigitsSplit(10, s, j, k - j, false);
    PowerSum(10, j, k - j);
    QuotientBelow(s, Power(10, k - j), Power(10, j));
  }

  lemma OneDigit(q: nat)
    ensures Power(10, 1) == 10
    ensures q < 10 ==> Digits(10, q, 1, false) == ['0' + q as char]
  {
    assert Power(10, 0) == 1;
    assert Digits(10, q, 1, false) == Digits(10, Over(q, 10), 0, false) + [DigitChar(Last(q, 10), false)];
  }

  // The branches leave the place of a sign, `o`, to be written at the end.
  method WriteInteger(o: nat, s: Long, n: nat, k: nat) returns (str: array<char>)
    requires o <= 1 && k <= n && s < Power(10, k)
    ensures fresh(str) && o <= str.Length && str[o..] == Digits(10, s, k, false) + Fill('0', n - k)
  {
    hide Digits, Over, Last, Power;
    str := new char[n + o];
    var _ := PutDigits(str, o, 0, k, s);
    ghost var d := str[o..o + k];
    var i := 0;
    while i < n - k
      invariant 0 <= i <= n - k
      invariant str[o..o + k] == d
      invariant forall j :: o + k <= j < o + k + i ==> str[j] == '0'
    {
      str[o + k + i] := '0';
      i := i + 1;
    }
    assert str[o..] == str[o..o + k] + str[o + k..];
    assert str[o + k..] == Fill('0', n - k);
  }

  method WriteFixed(o: nat, s: Long, n: nat, k: nat) returns (str: array<char>)
    requires o <= 1 && 0 < n < k && s < Power(10, k)
    ensures fresh(str) && o <= str.Length
    ensures var d := Digits(10, s, k, false); str[o..] == d[..n] + (Point(d[n..]) + "")
  {
    hide Digits, Over, Last, Power;
    str := new char[k + 1 + o];
    str[o + n] := '.';
    HeadDigits(s, n, k);
    var rest := PutDigits(str, o + 1, n, k, s);
    ghost var tail := str[o + 1 + n..o + 1 + k];
    var _ := PutDigits(str, o, 0, n, rest);
    assert str[o + 1 + n..o + 1 + k] == tail;
    assert str[o..] == str[o..o + n] + ("." + tail);
    assert "." + tail == Point(tail) + "";
  }

  lemma SmallShape(buf: string, o: nat, n: int, d: string)
    requires o <= 1 && -6 < n <= 0 && d != ""
    requires |buf| == n + |d| + 2 + o && o + 1 < |buf| && o + n + 2 >= 0 && buf[o + n + 2..] == d
    requires (n >= -1 ==> buf[o] == '0') && (n == 0 ==> buf[o + 1] == '.')
    ensures n == 0 ==> buf[o..] == "0" + (Point(d) + "")
    ensures n < 0 ==> Misplaced(o == 1, d, n).Some? && buf[o..] == Misplaced(o == 1, d, n).value
  {
    if n == 0 {
      assert buf[o..] == "0" + (Point(d) + "");
    } else {
      MisplacedShape(buf, o, n, d);
    }
  }

  lemma MisplacedShape(buf: string, o: nat, n: int, d: string)
    requires o <= 1 && -6 < n < 0 && d != ""
    requires |buf| == n + |d| + 2 + o && o + 1 < |buf| && o + n + 2 >= 0 && buf[o + n + 2..] == d
    requires n == -1 ==> buf[o] == '0'
    ensures Misplaced(o == 1, d, n).Some? && buf[o..] == Misplaced(o == 1, d, n).value
  {
    if n == -1 {
      assert buf[o..] == "0" + d;
    } else if n == -3 {
      assert buf == d;
    }
  }

  lemma MisplacedWhen(neg: bool, d: string, n: int)
    requires n <= 0 && d != ""
    ensures -6 < n < 0 ==> (Misplaced(neg, d, n).Some? <==>
                            var o := if neg then 1 else 0; n + |d| >= 0 && o + n + 2 >= 0)
  {}

  // The zeros after the point are never written, since N is not positive here.
  method WriteSmall(o: nat, s: Long, n: int, k: nat) returns (str: array?<char>)
    requires o <= 1 && -6 < n <= 0 && k >= 1 && s < Power(10, k)
    ensures str != null ==> fresh(str) && o <= str.Length
    ensures n == 0 ==> str != null && str[o..] == "0" + (Point(Digits(10, s, k, false)) + "")
    ensures n < 0 ==> var t := Misplaced(o == 1, Digits(10, s, k, false), n);
      (str != null <==> t.Some?) && (str != null ==> str[o..] == t.value)
  {
    hide Digits, Over, Last, Power, Point, Misplaced;
    MisplacedWhen(o == 1, Digits(10, s, k, false), n);
    var len := n + k + 2 + o;
    if o + 1 >= len || o + n + 2 < 0 {
      str := null;
    } else {
      str := FillSmall(o, s, n, k, len);
      SmallShape(str[..], o, n, Digits(10, s, k, false));
      assert str[..][o..] == str[o..];
    }
  }

  // The writes of this branch, once they are known to stay inside the buffer.
  method FillSmall(o: nat, s: Long, n: int, k: nat, len: nat) returns (str: array<char>)
    requires n <= 0 && len == n + k + 2 + o && o + 1 < len && o + n + 2 >= 0
    ensures fresh(str) && str.Length == len && str[..][o + n + 2..] == Digits(10, s, k, false)
    ensures (n >= -1 ==> str[..][o] == '0') && (n == 0 ==> str[..][o + 1] == '.')
  {
    hide Digits, Over, Power;
    str := new char[len];
    str[o] := '0';
    str[o + 1] := '.';
    var at := o + n + 2;
    var _ := PutDigits(str, at, 0, k, s);
    assert str[..][at..] == str[at + 0..at + k];
  }

  method WriteExponentOfDigit(o: nat, s: Long, n: int) returns (str: array<char>)
    requires o <= 1 && -9998 <= n <= 10000 && s < Power(10, 1)
    ensures fresh(str) && o <= str.Length
    ensures var d := Digits(10, s, 1, false); str[o..] == d + Exponent(n - 1)
  {
    hide Digits, Over, Last, Power;
    OneDigit(s);
    var negative := n - 1 < 0;
    var a := if negative then -n + 1 else n - 1;
    var expLen := CountLen(a);
    str := new char[expLen + o + 3];
    str[o] := '0' + s as char;
    str[o + 1] := 'e';
    str[o + 2] := if negative then '-' else '+';
    var _ := PutDigits(str, o + 3, 0, expLen, a);
    assert str[o + 3..] == str[o + 3..o + 3 + expLen];
    assert str[o..] == [str[o]] + ([str[o + 1], str[o + 2]] + str[o + 3..]);
  }

  method WriteExponent(o: nat, s: Long, n: int, k: nat) returns (str: array<char>)
    requires o <= 1 && -9998 <= n <= 10000 && k > 1 && s < Power(10, k)
    ensures fresh(str) && o <= str.Length
    ensures var d := Digits(10, s, k, false); str[o..] == d[..1] + (Point(d[1..]) + Exponent(n - 1))
  {
    hide Digits, Over, Last, Power, CountLen;
    var negative := n - 1 < 0;
    var a := if negative then -n + 1 else n - 1;
    var expLen := CountLen(a);
    str := new char[expLen + o + k + 3];
    str[o + 1] := '.';
    HeadDigits(s, 1, k);
    var rest := PutDigits(str, o + 1, 1, k, s);
    OneDigit(rest);
    str[o] := '0' + rest as char;
    str[o + k + 1] := 'e';
    str[o + k + 2] := if negative then '-' else '+';
    var _ := PutDigits(str, o + k + 3, 0, expLen, a);
    assert str[..][o + k + 3..] == str[o + k + 3..o + k + 3 + expLen];
    assert str[..][o + 2..o + k + 1] == str[o + 2..o + k + 1];
    ExponentShape(str[..], o, Digits(10, s, k, false), n - 1);
    assert str[..][o..] == str[o..];
  }

  lemma ExponentShape(buf: string, o: nat, d: string, e: int)
    requires |d| > 1 && |buf| >= o + |d| + 3 && buf[o] == d[0] && buf[o + 1] == '.' && buf[o + 2..o + |d| + 1] == d[1..]
    requires buf[o + |d| + 1] == 'e' && buf[o + |d| + 2] == if e < 0 then '-' else '+'
    requires var a := if e < 0 then -e else e; buf[o + |d| + 3..] == Digits(10, a, CountLen(a), false)
    ensures buf[o..] == d[..1] + (Point(d[1..]) + Exponent(e))
  {
    hide Digits, CountLen, Point, Exponent;
    var k := |d|;
    PointShape(buf[o + 1..o + k + 1], d[1..]);
    TailShape(buf[o + k + 1..], e);
    assert buf[o..o + 1] == d[..1];
    JoinParts(buf, o, o + 1, o + k + 1);
  }

  lemma PointShape(t: string, fraction: string)
    requires |t| == |fraction| + 1 > 1 && t[0] == '.' && t[1..] == fraction
    ensures t == Point(fraction)
  {}

  lemma TailShape(t: string, e: int)
    requires var a := if e < 0 then -e else e; |t| >= 2 && t[2..] == Digits(10, a, CountLen(a), false)
    requires t[0] == 'e' && t[1] == if e < 0 then '-' else '+'
    ensures t == Exponent(e)
  {
    hide Digits, CountLen;
    assert t == [t[0], t[1]] + t[2..];
    assert e < 0 ==> [t[0], t[1]] == "e-";
    assert e >= 0 ==> [t[0], t[1]] == "e+";
  }

  lemma JoinParts(t: string, i: nat, j: nat, l: nat)
    requires i <= j <= l <= |t|
    ensures t[i..] == t[i..j] + (t[j..l] + t[l..])
  {}

  // The text of a number; null where the source writes outside its buffer.
  method ToText(neg: bool, s: Long, n: int, k: nat) returns (str: array?<char>)
    requires k >= 1 && s < Power(10, k) && -9998 <= n <= 10000
    ensures str == null <==> Layout(neg, s, n, k).None?
    ensures str != null ==> fresh(str) && Layout(neg, s, n, k) == Some(str[..])
  {
    hide Digits, Over, Last, Power, Exponent, Fill;
    var o := if neg then 1 else 0;
    ghost var d := Digits(10, s, k, false);
    if k <= n <= 21 {
      str := WriteInteger(o, s, n, k);
      assert str[o..] == d + Fill('0', n - k) + (Point("") + "");
    } else if 0 < n <= 21 {
      str := WriteFixed(o, s, n, k);
    } else if -6 < n <= 0 {
      str := WriteSmall(o, s, n, k);
      if str == null { return; }
    } else if k == 1 {
      str := WriteExponentOfDigit(o, s, n);
      assert str[o..] == d[..1] + (Point(d[1..]) + Exponent(n - 1));
    } else {
      str := WriteExponent(o, s, n, k);
    }
    ghost var body := str[o..];
    if neg {
      str[0] := '-';
    }
    assert str[o..] == body;
    assert str[..] == Sign(neg) + body;
  }

  // ---- Which form is chosen: steps 6 to 10 of section 9.8.1 of ECMA-262 ----

  // Digits and zeros, without a point.
  predicate IntegerForm(t: string, s: nat, n: int, k: nat) {
    |t| == n && 0 < k <= n && AllDigits(t) && Value(10, t[..k]) == s && forall i :: k <= i < n ==> t[i] == '0'
  }

  // The point behind exactly n digits.
  predicate PointForm(t: string, s: nat, n: int, k: nat) {
    |t| == k + 1 && 0 < n < k && t[n] == '.' && AllDigits(t[..n]) && AllDigits(t[n + 1..])
    && Value(10, t[..n] + t[n + 1..]) == s
  }

  predicate ZeroPointForm(t: string, s: nat, k: nat) {
    |t| == k + 2 && t[..2] == "0." && AllDigits(t[2..]) && Value(10, t[2..]) == s
  }

  // One digit, the others behind a point if there are any, and the exponent with its sign and
  // without leading zeros.
  predicate ExponentForm(t: string, s: nat, n: int, k: nat) {
    var m := if k == 1 then 1 else k + 1;
    && k > 0 && |t| > m + 2
    && IsDigit(t[0]) && (k > 1 ==> t[1] == '.' && AllDigits(t[2..m]))
    && Value(10, if k > 1 then t[..1] + t[2..m] else t[..1]) == s
    && t[m] == 'e' && t[m + 1] == (if n - 1 < 0 then '-' else '+')
    && AllDigits(t[m + 2..]) && t[m + 2] != '0'
    && Value(10, t[m + 2..]) == if n - 1 < 0 then 1 - n else n - 1
  }

  predicate FormOf(t: string, s: nat, n: int, k: nat) {
    if n > 21 || n <= -6 then ExponentForm(t, s, n, k)
    else if n <= 0 then ZeroPointForm(t, s, k)
    else if n < k then PointForm(t, s, n, k)
    else IntegerForm(t, s, n, k)
  }

  // The text is the sign and the form that the standard asks for.
  lemma LayoutForm(neg: bool, s: nat, n: int, k: nat)
    requires Normal(s, k) && -9998 <= n <= 10000 && !(-6 < n < 0)
    ensures var r := Layout(neg, s, n, k); var o := if neg then 1 else 0;
      r.Some? && |r.value| > o && (neg ==> r.value[0] == '-') && FormOf(r.value[o..], s, n, k)
  {
    hide Digits, Exponent, IntegerForm, PointForm, ZeroPointForm, ExponentForm;
    var d := Digits(10, s, k, false);
    Parts(s, k);
    var o := if neg then 1 else 0;
    if k <= n <= 21 {
      var t := d + Fill('0', n - k);
      assert t + (Point("") + "") == t;
      SignedText(neg, t);
      IntegerParts(d, s, n, k);
      assert Layout(neg, s, n, k) == Some(Sign(neg) + t);
    } else if 0 < n <= 21 {
      var t := d[..n] + (Point(d[n..]) + "");
      SignedText(neg, t);
      PointParts(d, s, n, k);
    } else if n == 0 {
      var t := "0" + (Point(d) + "");
      SignedText(neg, t);
      ZeroPointParts(d, s, k);
    } else {
      var t := d[..1] + (Point(d[1..]) + Exponent(n - 1));
      SignedText(neg, t);
      ExponentParts(d, s, n, k);
    }
  }

  lemma SignedText(neg: bool, t: string)
    ensures var o := if neg then 1 else 0;
      (Sign(neg) + t)[o..] == t && |Sign(neg) + t| == o + |t| && (neg ==> (Sign(neg) + t)[0] == '-')
  {}

  lemma IntegerParts(d: string, s: nat, n: int, k: nat)
    requires |d| == k <= n && k > 0 && AllDigits(d) && Value(10, d) == s
    ensures IntegerForm(d + Fill('0', n - k), s, n, k)
  {
    hide Value;
    assert (d + Fill('0', n - k))[..k] == d;
  }

  lemma PointParts(d: string, s: nat, n: int, k: nat)
    requires |d| == k && 0 < n < k && AllDigits(d) && Value(10, d) == s
    ensures PointForm(d[..n] + (Point(d[n..]) + ""), s, n, k)
  {
    hide Value;
    var t := d[..n] + (Point(d[n..]) + "");
    assert t[..n] == d[..n] && t[n + 1..] == d[n..] && t[..n] + t[n + 1..] == d;
  }

  lemma ZeroPointParts(d: string, s: nat, k: nat)
    requires |d| == k > 0 && AllDigits(d) && Value(10, d) == s
    ensures ZeroPointForm("0" + (Point(d) + ""), s, k)
  {
    hide Value;
    var t := "0" + (Point(d) + "");
    assert t[..2] == "0." && t[2..] == d;
  }

  lemma ExponentParts(d: string, s: nat, n: int, k: nat)
    requires |d| == k > 0 && AllDigits(d) && Value(10, d) == s
    requires -9998 <= n <= 10000 && (n > 21 || n <= -6)
    ensures ExponentForm(d[..1] + (Point(d[1..]) + Exponent(n - 1)), s, n, k)
  {
    hide Value, Exponent, ExponentForm;
    var x := Exponent(n - 1);
    ExponentTail(n - 1);
    var front := d[..1] + Point(d[1..]);
    assert d[..1] + (Point(d[1..]) + x) == front + x;
    if k == 1 {
      assert front == d;
      OneDigitForm(d, s, n, x);
    } else {
      PointedForm(d, s, n, x);
    }
  }

  // The exponent as `ExponentForm` asks for it.
  predicate ExponentPart(x: string, e: int) {
    && |x| > 2 && x[0] == 'e' && x[1] == (if e < 0 then '-' else '+') && AllDigits(x[2..]) && x[2] != '0'
    && Value(10, x[2..]) == if e < 0 then -e else e
  }

  lemma OneDigitForm(d: string, s: nat, n: int, x: string)
    requires |d| == 1 && AllDigits(d) && Value(10, d) == s && ExponentPart(x, n - 1)
    ensures ExponentForm(d + x, s, n, 1)
  {
    hide Value, AllDigits;
    Behind(d, x);
    DigitAtFront(d);
    assert (d + x)[..1] == d;
  }

  lemma PointedForm(d: string, s: nat, n: int, x: string)
    requires |d| > 1 && AllDigits(d) && Value(10, d) == s && ExponentPart(x, n - 1)
    ensures ExponentForm(d[..1] + Point(d[1..]) + x, s, n, |d|)
  {
    hide Value, AllDigits;
    var front := d[..1] + Point(d[1..]);
    var t, m := front + x, |d| + 1;
    Behind(front, x);
    DigitAtFront(d);
    assert t[..1] == front[..1] == d[..1] && t[2..m] == front[2..] == d[1..];
    assert t[..1] + t[2..m] == d;
  }

  lemma DigitAtFront(d: string)
    requires d != "" && AllDigits(d)
    ensures IsDigit(d[0]) && AllDigits(d[1..])
  {}

  lemma Behind(front: string, x: string)
    requires |x| > 2
    ensures var t, m := front + x, |front|;
      t[m..] == x && t[m + 2..] == x[2..] && t[m] == x[0] && t[m + 1] == x[1] && t[..m] == front
  {}

  lemma ExponentTail(e: int)
    requires -9999 <= e <= 9999 && e != 0
    ensures ExponentPart(Exponent(e), e)
  {
    hide Value, Digits, CountLen;
    var a := if e < 0 then -e else e;
    var d := Digits(10, a, CountLen(a), false);
    assert Exponent(e)[2..] == d;
    DigitsAreDigits(a, CountLen(a), false);
    CountLenIsEnough(a);
    ValueOfDigits(10, a, CountLen(a), false);
    NoLeadingZero(a);
  }

  // countLen gives no digit more than is needed.
  lemma NoLeadingZero(a: nat)
    requires 1 <= a <= 9999
    ensures Digits(10, a, CountLen(a), false)[0] != '0'
  {
    hide Digits, Over, Power;
    var len := CountLen(a);
    CountLenIsEnough(a);
    HeadDigits(a, 1, len);
    FirstDigit(a);
    var q := Over(a, Power(10, len - 1));
    OneDigit(q);
    assert Digits(10, a, len, false)[0] == Digits(10, a, len, false)[..1][0];
  }

  lemma FirstDigit(a: nat)
    requires 1 <= a <= 9999
    ensures 1 <= Over(a, Power(10, CountLen(a) - 1)) < 10
  {
    assert Power(10, 0) == 1;
    assert Power(10, 1) == 10 * Power(10, 0);
    assert Power(10, 2) == 10 * Power(10, 1);
    assert Power(10, 3) == 10 * Power(10, 2);
  }

  // For -6 < N < 0 there is a text exactly when the buffer has room for "0." and no offset is
  // negative, and then it is made of digits only, behind the sign.
  lemma MisplacedForm(neg: bool, s: nat, n: int, k: nat)
    requires Normal(s, k) && -6 < n < 0
    ensures var r := Layout(neg, s, n, k); var o := if neg then 1 else 0;
      && (r.Some? <==> n + k >= 0 && o + n + 2 >= 0)
      && (r.Some? ==> |r.value| == n + k + 2 + o && (neg ==> r.value[0] == '-') && AllDigits(r.value[o..]))
  {
    hide Digits;
    Parts(s, k);
    var r := Layout(neg, s, n, k);
    if r.Some? { SignedText(neg, Misplaced(neg, Digits(10, s, k, false), n).value); }
  }
}
