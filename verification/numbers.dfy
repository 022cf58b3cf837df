/** Decimal numerals as Python reads and writes them: `str(n)`, `int(s)`,
    `int(float(s))` on decimal literals and `str.isdigit()`. Only ASCII digits
    are modelled. */
module Numbers {
  import opened Wrappers
  import opened Text

  predicate IsDigit(c: char) {
    '0' <= c <= '9'
  }

  predicate AllDigits(s: string) {
    forall i :: 0 <= i < |s| ==> IsDigit(s[i])
  }

  /** `s.isdigit()`: non-empty and every character a digit. */
  predicate IsDigits(s: string) {
    |s| > 0 && AllDigits(s)
  }

  function DigitValue(c: char): (d: nat)
    requires IsDigit(c)
    ensures d < 10
  {
    (c as int) - ('0' as int)
  }

  function DigitChar(d: nat): (c: char)
    requires d < 10
    ensures IsDigit(c) && DigitValue(c) == d
  {
    (('0' as int) + d) as char
  }

  /** The value of a (possibly empty) digit string; leading zeros are allowed. */
  function DigitsValue(s: string): nat
    requires AllDigits(s)
    decreases |s|
  {
    if |s| == 0 then 0 else DigitsValue(s[..|s| - 1]) * 10 + DigitValue(s[|s| - 1])
  }

  /** `str(n)` for a natural number: its shortest decimal numeral. */
  function NatToString(n: nat): (s: string)
    ensures IsDigits(s) && DigitsValue(s) == n
    ensures |s| == 1 || s[0] != '0'
    decreases n
  {
    if n < 10 then [DigitChar(n)]
    else
      var p := NatToString(n / 10);
      var s := p + [DigitChar(n % 10)];
      assert s[..|s| - 1] == p;
      s
  }

  /** `str(i)` for any integer. */
  function IntToString(i: int): (s: string)
    ensures |s| > 0 && Trimmed(s)
    ensures i < 0 <==> s[0] == '-'
  {
    if i < 0 then "-" + NatToString(-i) else NatToString(i)
  }

  /** The optional sign and the digits after it. */
  function SignAndBody(t: string): (bool, string)
  {
    if |t| > 0 && (t[0] == '-' || t[0] == '+') then (t[0] == '-', t[1..]) else (false, t)
  }

  /** `int(s)`: surrounding whitespace, an optional sign and decimal digits;
      anything else is a `ValueError` (here `None`). */
  function ParseInt(s: string): Option<int>
  {
    var (negative, body) := SignAndBody(Strip(s));
    if IsDigits(body) then
      Some(if negative then -(DigitsValue(body) as int) else DigitsValue(body))
    else None
  }

  /** `int(float(s))` for decimal literals: surrounding whitespace, an optional
      sign, digits with at most one `.`, at least one digit; the fraction is
      truncated toward zero. */
  function ParseDecimal(s: string): Option<int>
  {
    var (negative, body) := SignAndBody(Strip(s));
    DecimalBody(negative, body)
  }

  /** The value of an unsigned decimal literal, negated when `negative`. */
  function DecimalBody(negative: bool, body: string): Option<int>
  {
    var parts := Split(body, ".");
    if |parts| == 1 && IsDigits(body) then
      Some(if negative then -(DigitsValue(body) as int) else DigitsValue(body))
    else if |parts| == 2 && AllDigits(parts[0]) && AllDigits(parts[1]) && |parts[0]| + |parts[1]| > 0 then
      Some(if negative then -(DigitsValue(parts[0]) as int) else DigitsValue(parts[0]))
    else None
  }

  /** `str` and `int` are inverse: every integer's numeral reads back as it. */
  lemma {:induction false} ParseIntString(i: int)
    ensures ParseInt(IntToString(i)) == Some(i)
  {
    var s := IntToString(i);
    StripTrimmed(s);
    if i < 0 {
      assert s[1..] == NatToString(-i);
    }
  }

  /** A digit string contains no `.`. */
  lemma {:induction false} DigitsHaveNoDot(d: string)
    requires AllDigits(d)
    ensures !Contains(d, ".")
  {
    forall j | 0 <= j <= |d|
      ensures !OccursAt(d, ".", j)
    {
      if j + 1 <= |d| {
        assert d[j..j + 1][0] == d[j];
      }
    }
  }

  /** Every integer literal is also a decimal literal with the same value, so
      `int(float(s)) == int(s)` whenever `int(s)` succeeds. */
  lemma {:induction false} ParseDecimalOfInt(s: string)
    requires ParseInt(s).Some?
    ensures ParseDecimal(s) == ParseInt(s)
  {
    var (negative, body) := SignAndBody(Strip(s));
    DigitsHaveNoDot(body);
    assert Split(body, ".") == [body];
  }

  lemma {:induction false} DecimalBodyTruncates(negative: bool, whole: string, fraction: string)
    requires IsDigits(whole) && AllDigits(fraction)
    ensures DecimalBody(negative, whole + "." + fraction)
         == Some(if negative then -(DigitsValue(whole) as int) else DigitsValue(whole))
  {
    DigitsHaveNoDot(fraction);
    SplitPair(whole, fraction, ".");
  }

  /** A decimal literal with a fraction keeps only its whole part. */
  lemma {:induction false} ParseDecimalTruncates(whole: string, fraction: string)
    requires IsDigits(whole) && AllDigits(fraction)
    ensures ParseDecimal(whole + "." + fraction) == Some(DigitsValue(whole))
  {
    var s := whole + "." + fraction;
    assert s[0] == whole[0];
    assert Trimmed(s);
    StripTrimmed(s);
    assert SignAndBody(s) == (false, s);
    DecimalBodyTruncates(false, whole, fraction);
  }

  /** A negative decimal literal truncates toward zero, not toward minus infinity. */
  lemma {:induction false} ParseDecimalTruncatesNegative(whole: string, fraction: string)
    requires IsDigits(whole) && AllDigits(fraction)
    ensures ParseDecimal("-" + whole + "." + fraction) == Some(-(DigitsValue(whole) as int))
  {
    var s := whole + "." + fraction;
    var n := "-" + s;
    assert n == "-" + whole + "." + fraction;
    assert Trimmed(n);
    StripTrimmed(n);
    assert n[1..] == s;
    assert SignAndBody(n) == (true, s);
    DecimalBodyTruncates(true, whole, fraction);
  }
}
