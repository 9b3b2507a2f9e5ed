// Printing an integer into a buffer and reading it back (libs/lib-format/format.c). The
// 32-bit arithmetic wraps around, as two's complement machines do it.
module Format {
  import opened Numerals

  type Int32 = x: int | -WORD / 2 <= x < WORD / 2

  function ToInt32(x: int): Int32 { (x + WORD / 2) % WORD - WORD / 2 }

  datatype Flags = Flags(left: bool, plus: bool, special: bool, zeropad: bool, sign: bool, small: bool)

  // ---- What is written ----

  predicate Negative(num: Int32, f: Flags) { (f.sign || f.plus) && num < 0 }

  // The unsigned number whose digits are written.
  function Magnitude(num: Int32, f: Flags): nat {
    if Negative(num, f) then 0 - num else num % WORD
  }

  function SignText(num: Int32, f: Flags): string {
    if Negative(num, f) then "-" else if f.plus then "+" else ""
  }

  function PrefixText(radix: nat, f: Flags): string {
    if f.special && radix == 8 then "0"
    else if f.special && radix == 16 then (if f.small then "0x" else "0X")
    else ""
  }

  // The number of digits of `n`, at least one.
  function Length(r: nat, n: nat): (k: nat)
    requires 2 <= r
    ensures k >= 1
  {
    if n < r then 1 else
      OverShrinks(n, r);
      1 + Length(r, Over(n, r))
  }

  lemma OverShrinks(n: nat, r: nat)
    requires 2 <= r <= n
    ensures 0 < Over(n, r) < n
  {
    OverLast(n, r);
    hide Over, Last;
    if Over(n, r) >= n { Scale(2, r, Over(n, r)); }
  }

  function DigitText(radix: nat, n: nat, small: bool): string
    requires 2 <= radix <= 36
  {
    Digits(radix, n, Length(radix, n), small)
  }

  // The text before any padding.
  function Head(num: Int32, radix: nat, f: Flags): string { SignText(num, f) + PrefixText(radix, f) }

  function Natural(num: Int32, radix: nat, f: Flags): string
    requires 2 <= radix <= 36
  {
    Head(num, radix, f) + DigitText(radix, Magnitude(num, f), f.small)
  }

  function Text(num: Int32, radix: nat, width: int, f: Flags): string
    requires 2 <= radix <= 36
  {
    var missing := width - |Natural(num, radix, f)|;
    var digits := DigitText(radix, Magnitude(num, f), f.small);
    if f.left then Head(num, radix, f) + digits + Fill(' ', missing)
    else Head(num, radix, f) + (Fill(if f.zeropad then '0' else ' ', missing) + digits)
  }

  lemma TextLength(num: Int32, radix: nat, width: int, f: Flags)
    requires 2 <= radix <= 36
    ensures |Text(num, radix, width, f)| == if width > |Natural(num, radix, f)| then width else |Natural(num, radix, f)|
    ensures |Natural(num, radix, f)| == |Head(num, radix, f)| + Length(radix, Magnitude(num, f))
  {}

  lemma {:induction false} LengthIsEnough(r: nat, n: nat)
    requires 2 <= r
    ensures n < Power(r, Length(r, n))
    decreases n
  {
    if n < r {
      assert Power(r, 0) == 1;
      assert Power(r, 1) == r * Power(r, 0);
    } else {
      OverShrinks(n, r);
      LengthIsEnough(r, Over(n, r));
      OverLast(n, r);
      BelowProduct(n, r, Over(n, r), Last(n, r), Power(r, Length(r, Over(n, r))));
    }
  }

  lemma BelowProduct(n: nat, r: nat, q: nat, s: nat, p: nat)
    requires n == q * r + s && s < r && q < p
    ensures n < r * p
  {
    Scale(q + 1, p, r);
  }

  // In every radix, the digits that are written are worth the magnitude, and leading zeros
  // change nothing.
  lemma DigitsAreWorth(radix: nat, n: nat, small: bool, zeros: nat)
    requires 2 <= radix <= 36
    ensures Value(radix, Fill('0', zeros) + DigitText(radix, n, small)) == n
  {
    hide Power;
    LengthIsEnough(radix, n);
    ValueOfDigits(radix, n, Length(radix, n), small);
    ZerosAreWorthNothing(radix, zeros);
    ValueOfSum(radix, Fill('0', zeros), DigitText(radix, n, small));
  }

  // ---- The parts of the text ----

  // A digit of the alphabet that the flag asks for.
  predicate InAlphabet(c: char, small: bool) {
    '0' <= c <= '9' || (if small then 'a' <= c <= 'z' else 'A' <= c <= 'Z')
  }

  // Sign, prefix, padding, digits and trailing spaces, in this order and as the flags ask: the
  // sign of a negative number only where it is printed as signed, "0" before octal and "0x" before
  // hexadecimal digits, padding with zeros or spaces up to the width, and no leading zero among
  // the digits.
  lemma TextParts(num: Int32, radix: nat, width: int, f: Flags) returns (head: string, pad: string, d: string, trail: string)
    requires 2 <= radix <= 36
    ensures Text(num, radix, width, f) == head + pad + d + trail
    ensures head == (if num < 0 && (f.sign || f.plus) then "-" else if f.plus then "+" else "")
      + (if !f.special then "" else if radix == 8 then "0"
         else if radix == 16 then (if f.small then "0x" else "0X") else "")
    ensures |pad| + |trail| == if width > |head| + |d| then width - |head| - |d| else 0
    ensures if f.left then pad == "" else trail == ""
    ensures (forall i :: 0 <= i < |pad| ==> pad[i] == if f.zeropad then '0' else ' ')
    ensures (forall i :: 0 <= i < |trail| ==> trail[i] == ' ')
    ensures d != "" && (d[0] != '0' || d == "0") && forall i :: 0 <= i < |d| ==> InAlphabet(d[i], f.small)
    ensures Value(radix, d) ==
      if num >= 0 then num else if f.sign || f.plus then 0 - num else num + 0x1_0000_0000
  {
    hide Value, Natural, Text, InAlphabet, Magnitude, Head, DigitText, Padded;
    head, d := Head(num, radix, f), DigitText(radix, Magnitude(num, f), f.small);
    HeadIs(num, radix, f);
    var room := width - |head| - |d|;
    TextIs(num, radix, width, f);
    pad, trail := PaddedParts(d, room, f);
    assert head + (pad + d + trail) == head + pad + d + trail;
    DigitsAlone(num, radix, f);
  }

  lemma HeadIs(num: Int32, radix: nat, f: Flags)
    ensures Head(num, radix, f) == (if num < 0 && (f.sign || f.plus) then "-" else if f.plus then "+" else "")
      + (if !f.special then "" else if radix == 8 then "0"
         else if radix == 16 then (if f.small then "0x" else "0X") else "")
  {
  }

  lemma PaddedParts(d: string, room: int, f: Flags) returns (pad: string, trail: string)
    ensures Padded(d, room, f) == pad + d + trail
    ensures |pad| + |trail| == if room > 0 then room else 0
    ensures if f.left then pad == "" else trail == ""
    ensures (forall i :: 0 <= i < |pad| ==> pad[i] == if f.zeropad then '0' else ' ')
    ensures (forall i :: 0 <= i < |trail| ==> trail[i] == ' ')
  {
    pad, trail := "", "";
    if f.left {
      trail := Fill(' ', room);
    } else {
      pad := Fill(if f.zeropad then '0' else ' ', room);
    }
  }

  lemma DigitsAlone(num: Int32, radix: nat, f: Flags)
    requires 2 <= radix <= 36
    ensures var d := DigitText(radix, Magnitude(num, f), f.small);
      && d != "" && (d[0] != '0' || d == "0") && (forall i :: 0 <= i < |d| ==> InAlphabet(d[i], f.small))
      && Value(radix, d) == if num >= 0 then num else if f.sign || f.plus then 0 - num else num + 0x1_0000_0000
  {
    hide Digits, Value, Length, Power, InAlphabet;
    var n := Magnitude(num, f);
    var d := DigitText(radix, n, f.small);
    DigitsAreWorth(radix, n, f.small, 0);
    assert Fill('0', 0) + d == d;
    NoLeadingZero(radix, n, f.small);
    AllInAlphabet(radix, n, Length(radix, n), f.small);
  }

  lemma {:induction false} NoLeadingZero(r: nat, n: nat, small: bool)
    requires 2 <= r <= 36
    ensures var d := DigitText(r, n, small); d != "" && (d[0] != '0' || d == "0")
    decreases n
  {
    var k := Length(r, n);
    if n < r {
      Single(r, n, small);
    } else {
      OverShrinks(n, r);
      NoLeadingZero(r, Over(n, r), small);
      NotJustZero(r, Over(n, r), small);
    }
  }

  lemma Single(r: nat, n: nat, small: bool)
    requires 2 <= r <= 36 && n < r
    ensures DigitText(r, n, small) == [DigitChar(n, small)] && (DigitChar(n, small) == '0' ==> n == 0)
  {
    OverIs(n, r, 0, n);
    hide Over, Last;
    assert Digits(r, n, 1, small) == Digits(r, Over(n, r), 0, small) + [DigitChar(Last(n, r), small)];
  }

  lemma NotJustZero(r: nat, n: nat, small: bool)
    requires 2 <= r <= 36 && n > 0
    ensures DigitText(r, n, small) != "0"
  {
    hide Digits, Length;
    DigitsAreWorth(r, n, small, 0);
    assert Fill('0', 0) + DigitText(r, n, small) == DigitText(r, n, small);
    ValueOfLast(r, "", '0');
    assert "" + ['0'] == "0";
    ValueOfNothing(r);
  }

  lemma {:induction false} AllInAlphabet(r: nat, n: nat, k: nat, small: bool)
    requires 2 <= r <= 36
    ensures forall i :: 0 <= i < k ==> InAlphabet(Digits(r, n, k, small)[i], small)
    decreases k
  {
    hide Over, Last;
    if k > 0 {
      AllInAlphabet(r, Over(n, r), k - 1, small);
      OverLast(n, r);
    }
  }

  // ---- What is read ----

  // The end of the sequence stands for the terminating null character.
  function Parsed(s: string): Int32 {
    var signed := s != "" && (s[0] == '+' || s[0] == '-');
    var t := if signed then s[1..] else s;
    var v := Value(10, t[..Run(t)]);
    ToInt32(if signed && s[0] == '-' then 0 - v else v)
  }

  // The sign and the digits are read; what follows them is not.
  lemma ReadsSigned(sign: string, digits: string, rest: string)
    requires sign == "" || sign == "-" || sign == "+"
    requires AllDigits(digits) && (rest == "" || !IsDigit(rest[0]))
    requires digits == "" ==> rest == "" || (rest[0] != '-' && rest[0] != '+')
    ensures Parsed(sign + (digits + rest)) == ToInt32(if sign == "-" then 0 - Value(10, digits) else Value(10, digits))
  {
    hide Value, ToInt32, AllDigits, IsDigit, Run;
    var t := digits + rest;
    var s := sign + t;
    RunIs(digits, rest);
    assert t[..|digits|] == digits;
    assert s[|sign|..] == t;
    StartsPlain(digits, rest);
    assert sign == "" ==> s == t;
  }

  lemma StartsPlain(digits: string, rest: string)
    requires AllDigits(digits) && (digits == "" ==> rest == "" || (rest[0] != '-' && rest[0] != '+'))
    ensures var t := digits + rest; t == "" || (t[0] != '-' && t[0] != '+')
  {}

  // Padding with spaces puts them between the sign and the digits, where reading stops.
  predicate SpacePadded(num: Int32, width: int, f: Flags) {
    !f.left && !f.zeropad && width > |Natural(num, 10, f)|
  }

  lemma TenOrPlain(num: Int32, f: Flags)
    ensures Head(num, 10, f) == SignText(num, f)
  {}

  lemma ToInt32OfZero()
    ensures ToInt32(0) == 0
  {}

  lemma MagnitudeReturns(num: Int32, f: Flags)
    ensures ToInt32(if Negative(num, f) then 0 - Magnitude(num, f) else Magnitude(num, f)) == num
  {}

  lemma StopsAtSpaces(num: Int32, width: int, f: Flags)
    requires SpacePadded(num, width, f)
    ensures Parsed(Text(num, 10, width, f)) == 0
  {
    hide DigitText, Value, ToInt32, Magnitude, Parsed;
    var digits := DigitText(10, Magnitude(num, f), f.small);
    var rest := Fill(' ', width - |Natural(num, 10, f)|) + digits;
    TenOrPlain(num, f);
    ReadsSigned(SignText(num, f), "", rest);
    ValueOfNothing(10);
    assert "" + rest == rest;
    ToInt32OfZero();
  }

  lemma ReadsPadded(num: Int32, f: Flags, zeros: nat, rest: string)
    requires rest == "" || rest[0] == ' '
    ensures Parsed(SignText(num, f) + (Fill('0', zeros) + DigitText(10, Magnitude(num, f), f.small) + rest)) == num
  {
    hide Digits, Value, ToInt32, Magnitude, Parsed;
    var n := Magnitude(num, f);
    var t := Fill('0', zeros) + DigitText(10, n, f.small);
    DigitsAreDigits(n, Length(10, n), f.small);
    DigitsAreWorth(10, n, f.small, zeros);
    assert AllDigits(t);
    ReadsSigned(SignText(num, f), t, rest);
    MagnitudeReturns(num, f);
  }

  // Every number comes back, for every width and all flags, unless spaces pad it on the
  // left; then only zero does.
  lemma RoundTripIff(num: Int32, width: int, f: Flags)
    ensures Parsed(Text(num, 10, width, f)) == num <==> !SpacePadded(num, width, f) || num == 0
  {
    hide DigitText, ToInt32, Magnitude, Parsed, SignText;
    var sign, digits := SignText(num, f), DigitText(10, Magnitude(num, f), f.small);
    var missing := width - |Natural(num, 10, f)|;
    TenOrPlain(num, f);
    if SpacePadded(num, width, f) {
      StopsAtSpaces(num, width, f);
    } else if f.left {
      var rest := Fill(' ', missing);
      ReadsPadded(num, f, 0, rest);
      assert sign + digits + rest == sign + (Fill('0', 0) + digits + rest);
    } else {
      var zeros := if missing < 0 then 0 else missing;
      ReadsPadded(num, f, zeros, "");
      assert Fill(if f.zeropad then '0' else ' ', missing) == Fill('0', zeros);
      assert Fill('0', zeros) + digits + "" == Fill('0', zeros) + digits;
    }
  }

  // ---- The buffer ----

  function Reversed(s: string): (t: string)
    ensures |t| == |s|
  {
    seq(|s|, i requires 0 <= i < |s| => s[|s| - 1 - i])
  }

  // What is outside `from` to `to` is as it was.
  predicate Outside(was: string, now: string, from: nat, to: nat) {
    |was| == |now| && forall j :: 0 <= j < |was| && !(from <= j < to) ==> now[j] == was[j]
  }

  lemma NextDigit(r: nat, n: nat, k: nat, small: bool)
    requires 2 <= r <= 36
    ensures var q := Over(n, Power(r, k));
      Over(q, r) == Over(n, Power(r, k + 1)) && Last(q, r) < r
      && Reversed(Digits(r, n, k + 1, small)) == Reversed(Digits(r, n, k, small)) + [DigitChar(Last(q, r), small)]
  {
    hide Over, Last, Digits, Power, DigitChar;
    var q := Over(n, Power(r, k));
    OverLast(q, r);
    DivideOnce(n, r, k);
    DigitsSplit(r, n, 1, k, small);
    OneDigitOf(r, q, small);
  }

  lemma DivideOnce(n: nat, r: nat, k: nat)
    requires r > 0
    ensures Over(Over(n, Power(r, k)), r) == Over(n, Power(r, k + 1))
  {
    hide Over;
    DivideTwice(n, Power(r, k), r);
  }

  lemma OneDigitOf(r: nat, q: nat, small: bool)
    requires 2 <= r <= 36
    ensures Last(q, r) < r && Digits(r, q, 1, small) == [DigitChar(Last(q, r), small)]
  {
    hide Over, Last, DigitChar;
    OverLast(q, r);
    assert Digits(r, q, 1, small) == Digits(r, Over(q, r), 0, small) + [DigitChar(Last(q, r), small)];
  }

  lemma OverAtStart(r: nat, n: nat, small: bool)
    requires 2 <= r <= 36
    ensures Power(r, 0) == 1 && Over(n, 1) == n && Reversed(Digits(r, n, 0, small)) == ""
  {}

  lemma LengthStep(r: nat, n: nat)
    requires 2 <= r
    ensures (Over(n, r) != 0 ==> Length(r, n) == 1 + Length(r, Over(n, r)) && Over(n, r) < n)
    ensures (Over(n, r) == 0 ==> Length(r, n) == 1)
  {
    OverLast(n, r);
    if n < r { OverIs(n, r, 0, n); } else { OverShrinks(n, r); }
    hide Over, Last;
  }

  // The digits, last one first.
  method WriteDigits(str: array<char>, at: nat, r: nat, n: nat, small: bool) returns (end: nat)
    requires 2 <= r <= 36 && at + Length(r, n) <= str.Length
    modifies str
    ensures end == at + Length(r, n) && str[at..end] == Reversed(DigitText(r, n, small))
    ensures Outside(old(str[..]), str[..], at, end)
  {
    hide Over, Last, Digits, Power, DigitChar, Reversed, Length;
    end := at;
    var u := n;
    var more := true;
    OverAtStart(r, n, small);
    // The source tests the quotient after each digit.
    while more
      invariant at <= end <= str.Length
      invariant u == Over(n, Power(r, end - at))
      invariant str[at..end] == Reversed(Digits(r, n, end - at, small))
      invariant Outside(old(str[..]), str[..], at, end)
      invariant if more then end - at + Length(r, u) == Length(r, n) else end - at == Length(r, n)
      decreases more, u
    {
      NextDigit(r, n, end - at, small);
      LengthStep(r, u);
      ghost var so := str[at..end];
      str[end] := DigitChar(Last(u, r), small);
      u := Over(u, r);
      end := end + 1;
      assert str[at..end] == so + [str[end - 1]];
      more := u != 0;
    }
  }

  method WriteFill(str: array<char>, at: nat, width: int, c: char) returns (end: nat)
    requires at <= str.Length && width <= str.Length
    modifies str
    ensures end == (if at < width then width else at) && str[at..end] == Fill(c, width - at)
    ensures Outside(old(str[..]), str[..], at, end)
  {
    end := at;
    while end < width
      invariant at <= end && (end <= width || end == at)
      invariant str[at..end] == Fill(c, end - at)
      invariant Outside(old(str[..]), str[..], at, end)
    {
      ghost var so := str[at..end];
      str[end] := c;
      end := end + 1;
      assert str[at..end] == so + [c];
      assert Fill(c, end - at) == so + [c];
    }
  }

  method ReverseRange(str: array<char>, k: nat, i: nat)
    requires k < i <= str.Length
    modifies str
    ensures str[k..i] == Reversed(old(str[k..i])) && Outside(old(str[..]), str[..], k, i)
  {
    var j := k;
    while j <= (i + k - 1) / 2
      invariant k <= j <= (i + k - 1) / 2 + 1
      invariant forall m :: k <= m < i ==>
        str[m] == if j <= m <= i - 1 + k - j then old(str[m]) else old(str[i - 1 + k - m])
      invariant Outside(old(str[..]), str[..], k, i)
    {
      var temp := str[j];
      str[j] := str[i - 1 + k - j];
      str[i - j - 1 + k] := temp;
      j := j + 1;
    }
    ghost var was, now := old(str[k..i]), str[k..i];
    forall t | 0 <= t < |now| ensures now[t] == was[|was| - 1 - t] {
      assert now[t] == str[k + t] && was[|was| - 1 - t] == old(str[i - 1 + k - (k + t)]);
    }
    assert now == Reversed(was);
  }

  lemma PadReversed(d: string, c: char, k: int)
    ensures Reversed(Reversed(d) + Fill(c, k)) == Fill(c, k) + d
  {
    var t := Reversed(d) + Fill(c, k);
    assert forall i :: 0 <= i < |t| ==> Reversed(t)[i] == (Fill(c, k) + d)[i];
  }

  method WriteHead(str: array<char>, num: Int32, radix: nat, f: Flags) returns (i: nat, unum: nat)
    requires |Head(num, radix, f)| <= str.Length
    modifies str
    ensures i == |Head(num, radix, f)| && str[..i] == Head(num, radix, f) && unum == Magnitude(num, f)
    ensures Outside(old(str[..]), str[..], 0, i)
  {
    i := 0;
    if (f.sign || f.plus) && num < 0 {
      unum := 0 - num;
      str[i] := '-';
      i := i + 1;
    } else if f.plus {
      unum := num % WORD;
      str[i] := '+';
      i := i + 1;
    } else {
      unum := num % WORD;
    }
    assert str[..i] == SignText(num, f);
    if f.special {
      if radix == 8 {
        str[i] := '0';
        i := i + 1;
      } else if radix == 16 {
        str[i] := '0';
        i := i + 1;
        str[i] := if f.small then 'x' else 'X';
        i := i + 1;
      }
    }
  }

  // Where the reversal starts, found again from the first character.
  lemma StartFound(num: Int32, radix: nat, f: Flags)
    requires 2 <= radix <= 36
    ensures var first := (Head(num, radix, f) + Reversed(DigitText(radix, Magnitude(num, f), f.small)))[0];
      |Head(num, radix, f)| == (if first == '-' || first == '+' then 1 else 0)
        + (if f.special then (if radix == 8 then 1 else if radix == 16 then 2 else 0) else 0)
  {
    hide Magnitude, Length, Digits;
    var n := Magnitude(num, f);
    NoSigns(radix, n, Length(radix, n), f.small);
  }

  lemma {:induction false} NoSigns(r: nat, n: nat, k: nat, small: bool)
    requires 2 <= r <= 36
    ensures forall i :: 0 <= i < k ==> Digits(r, n, k, small)[i] != '-' && Digits(r, n, k, small)[i] != '+'
    decreases k
  {
    hide Over, Last;
    if k > 0 {
      NoSigns(r, Over(n, r), k - 1, small);
      OverLast(n, r);
    }
  }

  // Writing from `a` to `b` after what is already in front.
  lemma Wrote(was: string, s1: string, s2: string, a: nat, c: nat, b: nat, left: string, mid: string)
    requires a <= b <= |s1| && c <= b && Outside(was, s1, 0, c) && s1[..a] == left
    requires Outside(s1, s2, a, b) && s2[a..b] == mid
    ensures s2[..b] == left + mid && Outside(was, s2, 0, b)
  {
    assert s2[..b] == s2[..a] + s2[a..b];
    assert s2[..a] == s1[..a];
  }

  // Sign, prefix and the digits last one first; the reversal is to start at `k`.
  method WriteForward(str: array<char>, num: Int32, radix: nat, f: Flags) returns (k: nat, i: nat)
    requires 2 <= radix <= 36 && |Natural(num, radix, f)| <= str.Length
    modifies str
    ensures k == |Head(num, radix, f)| && i == |Natural(num, radix, f)|
    ensures str[..][..k] == Head(num, radix, f)
    ensures str[..][k..i] == Reversed(DigitText(radix, Magnitude(num, f), f.small))
    ensures Outside(old(str[..]), str[..], 0, i)
  {
    hide Head, Magnitude, Reversed, Length, Outside;
    ghost var was := str[..];
    ghost var head, n := Head(num, radix, f), Magnitude(num, f);
    ghost var d := DigitText(radix, n, f.small);
    var unum;
    i, unum := WriteHead(str, num, radix, f);
    ghost var s1 := str[..];
    i := WriteDigits(str, i, radix, unum, f.small);
    ghost var s2 := str[..];
    Wrote(was, s1, s2, |head|, |head|, i, head, Reversed(d));
    StartFound(num, radix, f);
    assert str[0] == s2[..i][0];
    k := if str[0] == '-' || str[0] == '+' then 1 else 0;
    k := k + if f.special then (if radix == 8 then 1 else if radix == 16 then 2 else 0) else 0;
    assert s2[k..i] == s2[..i][k..] && s2[..k] == s2[..i][..k];
  }

  // Prints `num`: the buffer holds exactly the text, and the reversal in place leaves the
  // sign and the prefix where they are.
  method Itoa(str: array<char>, num: Int32, radix: nat, width: int, f: Flags) returns (end: nat)
    requires 2 <= radix <= 36 && |Text(num, radix, width, f)| <= str.Length
    modifies str
    ensures end == |Text(num, radix, width, f)| && str[..end] == Text(num, radix, width, f)
    ensures Outside(old(str[..]), str[..], 0, end)
  {
    hide Head, Magnitude, DigitText, Reversed, Length, Outside, Natural, Padded, Text;
    ghost var was := str[..];
    TextLength(num, radix, width, f);
    DigitCount(num, radix, f);
    var k, i := WriteForward(str, num, radix, f);
    ghost var s2 := str[..];
    end := Finish(str, k, i, width, f, DigitText(radix, Magnitude(num, f), f.small));
    Wrote(was, s2, str[..], k, i, end, Head(num, radix, f), str[..][k..end]);
    TextIs(num, radix, width, f);
  }

  lemma DigitCount(num: Int32, radix: nat, f: Flags)
    requires 2 <= radix <= 36
    ensures var d := DigitText(radix, Magnitude(num, f), f.small);
      d != "" && |Natural(num, radix, f)| == |Head(num, radix, f)| + |d|
  {
    hide Head, Magnitude;
  }

  // What the padding, the reversal and the padding behind leave after the head of length `k`.
  function Padded(d: string, room: int, f: Flags): string {
    if f.left then d + Fill(' ', room) else Fill(if f.zeropad then '0' else ' ', room) + d
  }

  lemma TextIs(num: Int32, radix: nat, width: int, f: Flags)
    requires 2 <= radix <= 36
    ensures var d, head := DigitText(radix, Magnitude(num, f), f.small), Head(num, radix, f);
      Text(num, radix, width, f) == head + Padded(d, width - |head| - |d|, f)
  {
    hide Head, DigitText, Magnitude, Fill;
    var d, head := DigitText(radix, Magnitude(num, f), f.small), Head(num, radix, f);
    var blank := Fill(' ', width - |head| - |d|);
    assert head + d + blank == head + (d + blank);
  }

  // Writing from `m` to `e` behind what stands from `k` on.
  lemma Behind(was: string, s1: string, s2: string, k: nat, m: nat, e: nat, left: string, mid: string)
    requires k <= m <= e <= |s1| && Outside(was, s1, k, m) && s1[k..m] == left
    requires Outside(s1, s2, m, e) && s2[m..e] == mid
    ensures s2[k..e] == left + mid && Outside(was, s2, k, e)
  {
    assert s2[k..e] == s2[k..m] + s2[m..e];
    assert s2[k..m] == s1[k..m];
  }

  lemma OutsideTwice(s0: string, s1: string, s2: string, k: nat, e: nat)
    requires Outside(s0, s1, k, e) && Outside(s1, s2, k, e)
    ensures Outside(s0, s2, k, e)
  {}

  lemma Unchanged(s: string, k: nat, m: nat)
    ensures Outside(s, s, k, m)
  {}

  lemma NoFill(c: char, k: int)
    requires k <= 0
    ensures Fill(c, k) == ""
  {}

  method Finish(str: array<char>, k: nat, at: nat, width: int, f: Flags, ghost d: string) returns (end: nat)
    requires d != "" && at == k + |d| <= str.Length && width <= str.Length && str[..][k..at] == Reversed(d)
    modifies str
    ensures end == (if at < width then width else at) && str[..][k..end] == Padded(d, width - at, f)
    ensures Outside(old(str[..]), str[..], k, end)
  {
    hide Reversed, Fill, Outside;
    end := at;
    ghost var s0, c, room := str[..], if f.zeropad then '0' else ' ', if f.left then 0 else width - at;
    Unchanged(s0, k, at);
    Unchanged(s0, at, at);
    NoFill(c, 0);
    if !f.left {
      end := WriteFill(str, end, width, if f.zeropad then '0' else ' ');
    }
    ghost var s1, mid := str[..], end;
    assert s1[at..mid] == str[at..mid];
    Behind(s0, s0, s1, k, at, mid, Reversed(d), Fill(c, room));
    assert s1[k..mid] == str[k..mid];
    ReverseRange(str, k, end);
    ghost var s2 := str[..];
    assert s2[k..mid] == str[k..mid];
    PadReversed(d, c, room);
    OutsideTwice(s0, s1, s2, k, mid);
    end := WriteFill(str, end, width, ' ');
    assert str[..][mid..end] == str[mid..end];
    Behind(s0, s2, str[..], k, mid, end, Fill(c, room) + d, Fill(' ', width - mid));
    if f.left {
      assert Fill(c, room) + d + Fill(' ', width - mid) == Padded(d, width - at, f);
    } else {
      NoFill(' ', width - mid);
      assert Fill(c, room) + d + "" == Padded(d, width - at, f);
    }
  }

  // Reads a number: the index `p` runs over the text up to its end.
  method Atoi(s: string) returns (r: Int32)
    ensures r == Parsed(s)
  {
    hide Value, ToInt32, DigitValue, Run;
    var neg, p, res := false, 0, 0;
    if s != "" && (s[0] == '+' || s[0] == '-') {
      neg := s[0] != '+';
      p := 1;
    }
    ghost var from := p;
    AtStart(s, from);
    while p < |s| && '0' <= s[p] <= '9'
      invariant from <= p <= |s|
      invariant res == ToInt32(Value(10, s[from..p]))
      invariant Run(s[from..]) == p - from + Run(s[p..])
    {
      OneMore(s, from, p);
      WrapStep(Value(10, s[from..p]), DigitValue(s[p]));
      res := ToInt32(res * 10 + (s[p] as int - '0' as int));
      p := p + 1;
    }
    AtStop(s, from, p);
    WrapNegated(Value(10, s[from..p]));
    return if neg then ToInt32(0 - res) else res;
  }

  lemma AtStart(s: string, from: nat)
    requires from <= |s|
    ensures ToInt32(Value(10, s[from..from])) == 0 && s[0..] == s
  {}

  lemma OneMore(s: string, from: nat, p: nat)
    requires from <= p < |s| && IsDigit(s[p])
    ensures Value(10, s[from..p + 1]) == Value(10, s[from..p]) * 10 + DigitValue(s[p])
    ensures Run(s[p..]) == 1 + Run(s[p + 1..]) && DigitValue(s[p]) == s[p] as int - '0' as int
  {
    assert s[p..][1..] == s[p + 1..];
    assert s[from..p + 1] == s[from..p] + [s[p]];
    ValueOfLast(10, s[from..p], s[p]);
  }

  lemma AtStop(s: string, from: nat, p: nat)
    requires from <= p <= |s| && (p == |s| || !IsDigit(s[p]))
    requires Run(s[from..]) == p - from + Run(s[p..])
    ensures s[from..][..Run(s[from..])] == s[from..p]
  {
    assert Run(s[p..]) == 0;
  }

  lemma WrapStep(v: int, d: int)
    ensures ToInt32(ToInt32(v) * 10 + d) == ToInt32(v * 10 + d)
  {
    var q := (v + WORD / 2) / WORD;
    assert ToInt32(v) == v - q * WORD;
    Wraps(v * 10 + d, -10 * q);
  }

  lemma WrapNegated(v: int)
    ensures ToInt32(0 - ToInt32(v)) == ToInt32(0 - v)
  {
    var q := (v + WORD / 2) / WORD;
    assert ToInt32(v) == v - q * WORD;
    Wraps(0 - v, q);
  }

  lemma Wraps(x: int, k: int)
    ensures ToInt32(x + k * WORD) == ToInt32(x)
  {}
}
