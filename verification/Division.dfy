// 64-bit division by shifts and subtractions, with every wrap-around (libs/js/conversion.c).
module Division {
  import opened Numerals

  const LONG := 0x1_0000_0000_0000_0000

  type Word = x: int | 0 <= x < WORD
  type Long = x: int | 0 <= x < LONG

  function ToWord(x: int): Word { x % WORD }
  function ToLong(x: int): Long { x % LONG }

  // The value of the bits of `x` as a signed 64-bit integer.
  function Signed(x: Long): int { if x < LONG / 2 then x else x - LONG }

  // `num == res * base + rem`, with `b` the multiple of `base` to be subtracted next.
  ghost predicate Partial(num: Long, base: Word, rem: Long, res: Long, b: Long, d: Long) {
    num == res * base + rem && b == base * d
  }

  ghost predicate Divided(num: Long, base: Word, quotient: Long, remainder: Long) {
    num == quotient * base + remainder && remainder < base
  }

  lemma DividedIs(num: Long, base: Word, quotient: Long, remainder: Long)
    requires base > 0 && Divided(num, base, quotient, remainder)
    ensures remainder < WORD && quotient == Over(num, base) && remainder == Last(num, base)
    ensures num == quotient * base + remainder && remainder < base
  {
    OverIs(num, base, quotient, remainder);
  }

  lemma PartialAtStart(num: Long, base: Word)
    ensures Partial(num, base, num, 0, base, 1)
  {}

  // The reduction of the upper word: `high * base` fits one word, and the quotient found
  // so far fits the upper word of the result.
  lemma ReduceFirst(num: Long, base: Word, high: Word)
    requires base > 0 && high == num / WORD / base
    ensures high * base < WORD && high * WORD < LONG && high * base * WORD <= num
    ensures Partial(num, base, num - high * base * WORD, high * WORD, base, 1)
  {
    var top := num / WORD;
    assert high * base <= top;
    Scale(high * base, top, WORD);
    Swap(high, base);
  }

  lemma Swap(x: int, y: int)
    ensures x * WORD * y == x * y * WORD
  {}

  lemma Distribute(x: int, y: int, z: int)
    ensures (x + y) * z == x * z + z * y
  {}

  lemma Subtract(num: Long, base: Word, rem: Long, res: Long, b: Long, d: Long)
    requires base > 0 && Partial(num, base, rem, res, b, d) && rem >= b
    ensures res + d < LONG && Partial(num, base, rem - b, res + d, b, d)
  {
    Distribute(res, d, base);
    Scale(1, base, res + d);
  }

  // A power of two.
  ghost predicate IsPower(d: nat)
    decreases d
  {
    d == 1 || (d > 1 && d % 2 == 0 && IsPower(d / 2))
  }

  lemma Doubles(num: Long, base: Word, rem: Long, res: Long, b: Long, d: Long)
    requires base > 0 && Partial(num, base, rem, res, b, d) && b < LONG / 2 && IsPower(d)
    ensures d + d < LONG && Partial(num, base, rem, res, b + b, d + d) && IsPower(d + d)
  {
    assert base * (d + d) == b + b;
    assert d <= base * d;
    assert (d + d) / 2 == d;
  }

  lemma Halves(num: Long, base: Word, rem: Long, res: Long, b: Long, d: Long)
    requires Partial(num, base, rem, res, b, d) && IsPower(d) && rem < b
    ensures d > 1 ==> Partial(num, base, rem, res, b / 2, d / 2) && IsPower(d / 2) && rem < 2 * (b / 2)
    ensures d == 1 ==> Divided(num, base, res, rem)
  {
    if d > 1 {
      assert b == base * (d / 2) * 2;
    }
  }

  lemma Fits(x: int)
    ensures 0 <= x < LONG ==> ToLong(x) == x
    ensures 0 <= x < WORD ==> ToWord(x) == x
  {}

  // The quotient and the remainder; both loops end.
  method Div64(num: Long, base: Word) returns (quotient: Long, remainder: Word)
    requires base > 0
    ensures num == quotient * base + remainder && remainder < base
    ensures quotient == Over(num, base) && remainder == Last(num, base)
  {
    hide Partial, Divided, IsPower, ToLong, ToWord, Over, Last;
    var rem: Long, b: Long, d: Long := num, base, 1;
    var high: Word := rem / WORD;
    var res: Long := 0;
    PartialAtStart(num, base);
    if high >= base {
      high := high / base;
      ReduceFirst(num, base, high);
      Fits(high * base);
      Fits(high * WORD);
      Fits(high * base * WORD);
      Fits(num - high * base * WORD);
      res := ToLong(high * WORD);
      rem := ToLong(rem - ToLong(ToWord(high * base) * WORD));
    }
    OneIsPower();
    while Signed(b) > 0 && b < rem
      invariant b > 0 && IsPower(d) && Partial(num, base, rem, res, b, d)
      decreases LONG - b
    {
      Doubles(num, base, rem, res, b, d);
      Fits(b + b);
      Fits(d + d);
      b := ToLong(b + b);
      d := ToLong(d + d);
    }
    PowerIsPositive(d);
    // The source tests `d` at the end of the loop; it is not zero at the start.
    while d != 0
      invariant d != 0 ==> IsPower(d) && Partial(num, base, rem, res, b, d) && rem < 2 * b
      invariant d == 0 ==> Divided(num, base, res, rem)
      decreases d
    {
      if rem >= b {
        Subtract(num, base, rem, res, b, d);
        Fits(rem - b);
        Fits(res + d);
        rem := ToLong(rem - b);
        res := ToLong(res + d);
      }
      Halves(num, base, rem, res, b, d);
      b := b / 2;
      d := d / 2;
    }
    DividedIs(num, base, res, rem);
    Fits(rem);
    return res, ToWord(rem);
  }

  lemma OneIsPower()
    ensures IsPower(1)
  {}

  lemma PowerIsPositive(d: nat)
    requires IsPower(d)
    ensures d > 0
  {}
}
