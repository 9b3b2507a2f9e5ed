// Numerals: the digits that the formatters write, and what a run of digits is worth.
module Numerals {
  // The number of values of a 32-bit word.
  const WORD := 0x1_0000_0000

  function Power(r: nat, k: nat): (p: nat)
    ensures r > 0 ==> p > 0
  {
    if k == 0 then 1 else r * Power(r, k - 1)
  }

  function DigitChar(d: nat, small: bool): char
    requires d < 36
  {
    if d < 10 then '0' + d as char
    else if small then 'a' + (d - 10) as char else 'A' + (d - 10) as char
  }

  predicate IsDigit(c: char) { '0' <= c <= '9' }

  function DigitValue(c: char): nat {
    if '0' <= c <= '9' then (c - '0') as nat
    else if 'a' <= c <= 'z' then (c - 'a') as nat + 10
    else if 'A' <= c <= 'Z' then (c - 'A') as nat + 10
    else 0
  }

  function Over(n: nat, r: nat): nat
    requires r > 0
  {
    n / r
  }

  function Last(n: nat, r: nat): nat
    requires r > 0
  {
    n % r
  }

  lemma OverLast(n: nat, r: nat)
    requires r > 0
    ensures n == Over(n, r) * r + Last(n, r) && Last(n, r) < r
  {}

  // The last `k` digits of `n`, most significant first.
  function Digits(r: nat, n: nat, k: nat, small: bool): (s: string)
    requires 2 <= r <= 36
    ensures |s| == k
  {
    if k == 0 then "" else Digits(r, Over(n, r), k - 1, small) + [DigitChar(Last(n, r), small)]
  }

  // What a run of digits is worth.
  function Value(r: nat, s: string): nat {
    if s == "" then 0 else Value(r, s[..|s| - 1]) * r + DigitValue(s[|s| - 1])
  }

  lemma DigitCharValue(d: nat, small: bool)
    requires d < 36
    ensures DigitValue(DigitChar(d, small)) == d && (d < 10 ==> IsDigit(DigitChar(d, small)))
  {}

  lemma Regroup(x: int, p: int, y: int, r: int)
    ensures (x * p + y) * r == x * (r * p) + y * r
  {}

  lemma {:induction false} ValueOfSum(r: nat, a: string, b: string)
    ensures Value(r, a + b) == Value(r, a) * Power(r, |b|) + Value(r, b)
  {
    if b == "" {
      assert a + b == a;
    } else {
      var c := b[..|b| - 1];
      assert (a + b)[..|a + b| - 1] == a + c;
      ValueOfSum(r, a, c);
      Regroup(Value(r, a), Power(r, |c|), Value(r, c), r);
    }
  }

  lemma ValueOfNothing(r: nat)
    ensures Value(r, "") == 0
  {}

  lemma ValueOfLast(r: nat, a: string, c: char)
    ensures Value(r, a + [c]) == Value(r, a) * r + DigitValue(c)
  {
    assert (a + [c])[..|a|] == a;
  }

  // Written digits are worth what was written.
  lemma {:induction false} ValueOfDigits(r: nat, n: nat, k: nat, small: bool)
    requires 2 <= r <= 36 && n < Power(r, k)
    ensures Value(r, Digits(r, n, k, small)) == n
    decreases k
  {
    hide Over, Last, Value, DigitValue, DigitChar;
    if k == 0 {
      ValueOfNothing(r);
    } else {
      QuotientBelow(n, r, Power(r, k - 1));
      ValueOfDigits(r, Over(n, r), k - 1, small);
      OverLast(n, r);
      DigitCharValue(Last(n, r), small);
      ValueOfLast(r, Digits(r, Over(n, r), k - 1, small), DigitChar(Last(n, r), small));
    }
  }

  lemma {:induction false} DigitsAreDigits(n: nat, k: nat, small: bool)
    ensures forall i :: 0 <= i < k ==> IsDigit(Digits(10, n, k, small)[i])
  {
    if k > 0 {
      DigitsAreDigits(n / 10, k - 1, small);
      DigitCharValue(n % 10, small);
    }
  }

  // The first `j` of `j + k` digits are those of the quotient by the k-th power.
  lemma {:induction false} DigitsSplit(r: nat, n: nat, j: nat, k: nat, small: bool)
    requires 2 <= r <= 36
    ensures Digits(r, n, j + k, small) == Digits(r, Over(n, Power(r, k)), j, small) + Digits(r, n, k, small)
  {
    if k == 0 {
      assert Digits(r, n, 0, small) == "";
    } else {
      DigitsSplit(r, Over(n, r), j, k - 1, small);
      DivideTwice(n, r, Power(r, k - 1));
    }
  }

  lemma DivideTwice(n: nat, a: nat, b: nat)
    requires a > 0 && b > 0
    ensures a * b > 0 && Over(Over(n, a), b) == Over(n, a * b)
  {
    hide Over, Last;
    var q, s := Over(n, a), Last(n, a);
    var p, t := Over(q, b), Last(q, b);
    OverLast(n, a);
    OverLast(q, b);
    Nested(a, b, p, s, t);
    OverIs(n, a * b, p, t * a + s);
  }

  lemma Nested(a: nat, b: nat, p: nat, s: nat, t: nat)
    requires s < a && t < b
    ensures (p * b + t) * a + s == p * (a * b) + (t * a + s) && t * a + s < a * b
  {
    Scale(t + 1, b, a);
  }

  lemma Scale(x: int, y: int, m: nat)
    requires x <= y
    ensures x * m <= y * m
  {}

  lemma QuotientBelow(n: nat, r: nat, p: nat)
    requires r > 0 && n < r * p
    ensures Over(n, r) < p
  {
    hide Over, Last;
    OverLast(n, r);
    var q := Over(n, r);
    if q >= p { Scale(p, q, r); }
  }

  lemma OverIs(n: nat, m: nat, q: nat, s: nat)
    requires m > 0 && n == q * m + s && s < m
    ensures Over(n, m) == q && Last(n, m) == s
  {
    hide Over, Last;
    OverLast(n, m);
    SameQuotient(m, q, s, Over(n, m), Last(n, m));
  }

  lemma SameQuotient(m: nat, q: nat, s: nat, p: nat, t: nat)
    requires s < m && t < m && q * m + s == p * m + t
    ensures q == p && s == t
  {
    if q < p { Scale(q + 1, p, m); }
    if p < q { Scale(p + 1, q, m); }
  }

  lemma Associate(x: int, y: int, z: int)
    ensures x * (y * z) == x * y * z
  {}

  lemma {:induction false} PowerSum(r: nat, j: nat, k: nat)
    ensures Power(r, j + k) == Power(r, j) * Power(r, k)
  {
    if j > 0 {
      PowerSum(r, j - 1, k);
      Associate(r, Power(r, j - 1), Power(r, k));
    }
  }

  // The length of the longest run of digits at the front.
  function Run(s: string): (k: nat)
    ensures k <= |s|
  {
    if s == "" || !IsDigit(s[0]) then 0 else 1 + Run(s[1..])
  }

  predicate AllDigits(s: string) {
    forall i :: 0 <= i < |s| ==> IsDigit(s[i])
  }

  lemma {:induction false} RunIs(s: string, t: string)
    requires AllDigits(s) && (t == "" || !IsDigit(t[0]))
    ensures Run(s + t) == |s|
  {
    if s == "" {
      assert s + t == t;
    } else {
      assert (s + t)[1..] == s[1..] + t;
      RunIs(s[1..], t);
    }
  }

  function Fill(c: char, k: int): (s: string)
    ensures |s| == if k < 0 then 0 else k
  {
    seq(if k < 0 then 0 else k, i => c)
  }

  lemma {:induction false} ZerosAreWorthNothing(r: nat, k: nat)
    ensures AllDigits(Fill('0', k)) && Value(r, Fill('0', k)) == 0
  {
    if k > 0 {
      assert Fill('0', k) == Fill('0', k - 1) + ['0'];
      ZerosAreWorthNothing(r, k - 1);
      ValueOfLast(r, Fill('0', k - 1), '0');
    }
  }
}
