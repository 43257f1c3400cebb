/** Decimal text: `Number.prototype.toString()` on a nonnegative integer,
    `String.prototype.padStart` with a one-character fill, and `parseInt` on
    one digit character. `Parse` reads a run of digits back as a number; it is
    how the decoder of this model reads a field back. */
module Decimal {

  type Digit = x: int | 0 <= x < 10

  predicate IsDigit(ch: char) {
    '0' <= ch <= '9'
  }

  predicate AllDigits(s: string) {
    forall i :: 0 <= i < |s| ==> IsDigit(s[i])
  }

  /** Joining digit strings gives a digit string. */
  lemma ConcatDigits(a: string, b: string)
    requires AllDigits(a) && AllDigits(b)
    ensures AllDigits(a + b)
  {
    forall i | 0 <= i < |a + b|
      ensures IsDigit((a + b)[i])
    {
      if i >= |a| {
        assert (a + b)[i] == b[i - |a|];
      }
    }
  }

  /** Dropping the first character of a digit string leaves a digit string. */
  lemma TailDigits(s: string)
    requires AllDigits(s) && |s| >= 1
    ensures AllDigits(s[1..])
  {
    forall i | 0 <= i < |s| - 1
      ensures IsDigit(s[1..][i])
    {
      assert s[1..][i] == s[i + 1];
    }
  }

  /** `parseInt(ch)` for a single decimal digit character. */
  function DigitValue(ch: char): (v: Digit)
    requires IsDigit(ch)
  {
    ch as int - '0' as int
  }

  /** `v.toString()` for a single digit value. */
  function DigitChar(v: Digit): (ch: char)
    ensures IsDigit(ch) && DigitValue(ch) == v
  {
    ('0' as int + v) as char
  }

  lemma DigitCharOfValue(ch: char)
    requires IsDigit(ch)
    ensures DigitChar(DigitValue(ch)) == ch
  {
  }

  function Pow10(k: nat): (r: nat)
    ensures r >= 1
  {
    if k == 0 then 1 else 10 * Pow10(k - 1)
  }

  /** The powers of ten the chunk widths of the pairing code use. */
  lemma Pow10Values()
    ensures Pow10(1) == 10 && Pow10(4) == 10000 && Pow10(5) == 100000
  {
  }

  /** `n.toString()` for a nonnegative integer: its decimal digits, most
      significant first, without leading zeros ("0" for zero). */
  function ToDecimal(n: nat): (s: string)
    ensures 1 <= |s| && AllDigits(s)
    ensures s[0] == '0' ==> n == 0 && s == "0"
    decreases n
  {
    if n < 10 then [DigitChar(n)] else ToDecimal(n / 10) + [DigitChar(n % 10)]
  }

  /** `k` copies of `fill`. */
  function Repeat(fill: char, k: nat): (r: string)
    ensures |r| == k && forall i :: 0 <= i < k ==> r[i] == fill
  {
    if k == 0 then [] else [fill] + Repeat(fill, k - 1)
  }

  /** `s.padStart(width, fill)`: `fill` repeated on the left up to `width`
      characters; a string already that long is returned unchanged (it is
      never truncated). */
  function PadStart(s: string, width: nat, fill: char): (r: string)
    ensures |r| == if |s| < width then width else |s|
    ensures r[|r| - |s|..] == s
    ensures forall i :: 0 <= i < |r| - |s| ==> r[i] == fill
  {
    if |s| < width then Repeat(fill, width - |s|) + s else s
  }

  /** The number a string of decimal digits denotes (leading zeros allowed). */
  function Parse(s: string): (n: nat)
    requires AllDigits(s)
    ensures n < Pow10(|s|)
  {
    if s == [] then 0 else 10 * Parse(s[..|s| - 1]) + DigitValue(s[|s| - 1])
  }

  // ---------------------------------------------------------------------------
  // Properties

  /** The last digit of a digit string is its units digit. */
  lemma ParseLast(s: string)
    requires AllDigits(s) && |s| >= 1
    ensures AllDigits(s[..|s| - 1])
    ensures Parse(s) == 10 * Parse(s[..|s| - 1]) + DigitValue(s[|s| - 1])
  {
  }

  /** Reading back what `toString` wrote gives the number. */
  lemma {:induction false} ParseToDecimal(n: nat)
    ensures Parse(ToDecimal(n)) == n
    decreases n
  {
    if n >= 10 {
      ParseToDecimal(n / 10);
      var s := ToDecimal(n);
      assert s[..|s| - 1] == ToDecimal(n / 10);
    }
  }

  /** `toString` needs at most k digits exactly for the numbers below 10^k. */
  lemma {:induction false} ToDecimalLength(n: nat, k: nat)
    requires k >= 1
    ensures |ToDecimal(n)| <= k <==> n < Pow10(k)
    decreases n
  {
    if n >= 10 && k > 1 {
      ToDecimalLength(n / 10, k - 1);
    }
    if n >= 10 && k == 1 {
      assert |ToDecimal(n)| == |ToDecimal(n / 10)| + 1;
    }
  }

  /** Padding with zeros keeps the string a digit string. */
  lemma PadZerosDigits(s: string, width: nat)
    requires AllDigits(s)
    ensures AllDigits(PadStart(s, width, '0'))
  {
    var r := PadStart(s, width, '0');
    forall i | 0 <= i < |r|
      ensures IsDigit(r[i])
    {
      if i >= |r| - |s| {
        assert r[i] == r[|r| - |s|..][i - (|r| - |s|)];
      }
    }
  }

  lemma {:induction false} ParseZeros(m: nat)
    ensures AllDigits(Repeat('0', m)) && Parse(Repeat('0', m)) == 0
    decreases m
  {
    if m > 0 {
      ParseZeros(m - 1);
      assert Repeat('0', m)[..m - 1] == Repeat('0', m - 1);
    }
  }

  /** Leading zeros do not change the value of a digit string. */
  lemma {:induction false} ParseLeadingZeros(m: nat, s: string)
    requires AllDigits(s)
    ensures AllDigits(Repeat('0', m) + s)
    ensures Parse(Repeat('0', m) + s) == Parse(s)
    decreases |s|
  {
    var z := Repeat('0', m);
    if s == [] {
      ParseZeros(m);
      assert z + s == z;
    } else {
      ParseLeadingZeros(m, s[..|s| - 1]);
      assert (z + s)[..|z + s| - 1] == z + s[..|s| - 1];
    }
  }

  /** A number written with `toString().padStart(width, '0')` reads back as
      itself, whatever the width. */
  lemma ParsePadded(n: nat, width: nat)
    ensures AllDigits(PadStart(ToDecimal(n), width, '0'))
    ensures Parse(PadStart(ToDecimal(n), width, '0')) == n
  {
    var s := ToDecimal(n);
    PadZerosDigits(s, width);
    ParseToDecimal(n);
    if |s| < width {
      assert PadStart(s, width, '0') == Repeat('0', width - |s|) + s;
      ParseLeadingZeros(width - |s|, s);
    } else {
      assert PadStart(s, width, '0') == s;
    }
  }

  /** A number determines its last decimal digit and the number before it. */
  lemma LastDigitUnique(a: nat, d: Digit, b: nat, e: Digit)
    requires 10 * a + d == 10 * b + e
    ensures a == b && d == e
  {
  }

  /** Two digit strings of the same length with the same value are equal. */
  lemma {:induction false} ParseInjective(x: string, y: string)
    requires AllDigits(x) && AllDigits(y) && |x| == |y| && Parse(x) == Parse(y)
    ensures x == y
    decreases |x|
  {
    if |x| > 0 {
      var k := |x| - 1;
      var a, b := Parse(x[..k]), Parse(y[..k]);
      var d, e := DigitValue(x[k]), DigitValue(y[k]);
      assert 10 * a + d == 10 * b + e;
      LastDigitUnique(a, d, b, e);
      ParseInjective(x[..k], y[..k]);
      assert x == x[..k] + [x[k]] && y == y[..k] + [y[k]];
    }
  }

  /** Every digit string is the zero-padded `toString` of the number it
      denotes, padded to its own length: the written form is canonical. */
  lemma PaddedParse(s: string)
    requires AllDigits(s) && |s| >= 1
    ensures PadStart(ToDecimal(Parse(s)), |s|, '0') == s
  {
    var n := Parse(s);
    ToDecimalLength(n, |s|);
    ParsePadded(n, |s|);
    ParseInjective(PadStart(ToDecimal(n), |s|, '0'), s);
  }
}
