/**
 * Exact reading of a fare such as "1234.50". The monitor hands the cleaned text to Python's
 * `float()`; this model accepts the plain unsigned decimal forms of that function
 * ("980", "1234.50", "12.", ".5") and yields their exact value as a `real`.
 */
module Decimal {
  import opened Results

  predicate IsDigit(c: char) {
    '0' <= c <= '9'
  }

  predicate AllDigits(s: string) {
    forall k | 0 <= k < |s| :: IsDigit(s[k])
  }

  function DigitValue(c: char): (d: nat)
    requires IsDigit(c)
    ensures d < 10
  {
    (c as int) - ('0' as int)
  }

  function DigitChar(d: nat): (c: char)
    requires d < 10
    ensures IsDigit(c) && DigitValue(c) == d
  {
    ('0' as int + d) as char
  }

  /** The number a digit string denotes, read left to right; the empty string reads as 0. */
  function DigitsValue(s: string): nat
    requires AllDigits(s)
    decreases |s|
  {
    if |s| == 0 then 0 else DigitsValue(s[..|s| - 1]) * 10 + DigitValue(s[|s| - 1])
  }

  function Pow10(k: nat): (p: nat)
    ensures p >= 1
  {
    if k == 0 then 1 else 10 * Pow10(k - 1)
  }

  /**
   * The texts accepted as a price: digits, optionally one point followed by digits,
   * with at least one digit in all.
   */
  predicate IsDecimalLiteral(s: string) {
    || (|s| > 0 && AllDigits(s))
    || (exists p | 0 <= p < |s| :: s[p] == '.' && |s| > 1 && AllDigits(s[..p]) && AllDigits(s[p + 1..]))
  }

  /** Position of the first occurrence of `c` in `s`. */
  function IndexOf(s: string, c: char): (i: nat)
    requires c in s
    ensures i < |s| && s[i] == c && c !in s[..i]
  {
    if s[0] == c then 0
    else
      assert c in s[1..] by { var k :| 0 <= k < |s| && s[k] == c; assert s[1..][k - 1] == c; }
      var j := IndexOf(s[1..], c);
      assert s[..j + 1] == [s[0]] + s[1..][..j];
      j + 1
  }

  /** The value of a literal with whole part `whole` and fraction digits `frac`. */
  function PointedValue(whole: string, frac: string): real
    requires AllDigits(whole) && AllDigits(frac)
  {
    DigitsValue(whole) as real + DigitsValue(frac) as real / Pow10(|frac|) as real
  }

  /** `float(s)` for the forms above: the exact value, or `None` where Python raises ValueError. */
  function ParseDecimal(s: string): (r: Option<real>)
    ensures r.Some? ==> r.value >= 0.0
  {
    if '.' in s then
      var p := IndexOf(s, '.');
      var whole, frac := s[..p], s[p + 1..];
      if |s| > 1 && AllDigits(whole) && AllDigits(frac) then
        Some(PointedValue(whole, frac))
      else
        None
    else if |s| > 0 && AllDigits(s) then
      Some(DigitsValue(s) as real)
    else
      None
  }

  /** A text is read as a price exactly when it has the decimal shape; anything else is rejected. */
  lemma ParseDecimalAccepts(s: string)
    ensures ParseDecimal(s).Some? <==> IsDecimalLiteral(s)
  {
    if '.' in s {
      var p := IndexOf(s, '.');
      assert !AllDigits(s) by { assert !IsDigit(s[p]); }
      if IsDecimalLiteral(s) {
        var q :| 0 <= q < |s| && s[q] == '.' && |s| > 1 && AllDigits(s[..q]) && AllDigits(s[q + 1..]);
        assert q == p;
      }
    } else {
      assert forall q | 0 <= q < |s| :: s[q] != '.';
    }
  }

  /** Decimal rendering of a natural number, without leading zeros. */
  function NatText(n: nat): (s: string)
    ensures |s| > 0 && AllDigits(s) && '.' !in s
    decreases n
  {
    if n < 10 then [DigitChar(n)] else NatText(n / 10) + [DigitChar(n % 10)]
  }

  lemma {:induction false} NatTextValue(n: nat)
    ensures DigitsValue(NatText(n)) == n
    decreases n
  {
    if n >= 10 {
      var s := NatText(n);
      assert s[..|s| - 1] == NatText(n / 10);
      NatTextValue(n / 10);
    }
  }

  /** A whole fare written without separators reads back as itself ("999" is 999). */
  lemma ParseNatText(n: nat)
    ensures ParseDecimal(NatText(n)) == Some(n as real)
  {
    NatTextValue(n);
  }

  /** A whole number of cents written with two decimals, as `f"{x:.2f}"` shows an exact-cent amount. */
  function CentsText(cents: nat): (s: string)
    ensures |s| >= 4 && s[|s| - 3] == '.'
  {
    NatText(cents / 100) + "." + [DigitChar(cents / 10 % 10), DigitChar(cents % 10)]
  }

  lemma FirstPointAt(s: string, p: nat)
    requires 0 < p < |s| && s[p] == '.' && AllDigits(s[..p])
    ensures '.' in s && IndexOf(s, '.') == p
  {
  }

  /** A text with one point after a non-empty digit run reads as whole part plus scaled fraction. */
  lemma ParsePointed(s: string, p: nat)
    requires 0 < p < |s| && s[p] == '.' && AllDigits(s[..p]) && AllDigits(s[p + 1..])
    ensures ParseDecimal(s) == Some(PointedValue(s[..p], s[p + 1..]))
  {
    FirstPointAt(s, p);
  }

  lemma TwoDigitsValue(hi: nat, lo: nat)
    requires hi < 10 && lo < 10
    ensures DigitsValue([DigitChar(hi), DigitChar(lo)]) == hi * 10 + lo
  {
    var t := [DigitChar(hi), DigitChar(lo)];
    var h := t[..1];
    assert h == [DigitChar(hi)] && h[..0] == [];
    assert DigitsValue(h) == DigitsValue(h[..0]) * 10 + DigitValue(h[0]) == hi;
    assert t[..|t| - 1] == h;
  }

  lemma CentsDigits(cents: nat)
    ensures cents / 10 % 10 * 10 + cents % 10 == cents % 100
    ensures (cents / 100) as real + (cents % 100) as real / 100.0 == cents as real / 100.0
  {
    var q, m := cents / 100, cents % 100;
    assert cents == q * 100 + m;
  }

  /** Reading a two-decimal rendering gives back the exact amount: "1234.50" is 123450 cents. */
  lemma ParseCentsText(cents: nat)
    ensures ParseDecimal(CentsText(cents)) == Some(cents as real / 100.0)
  {
    var whole := NatText(cents / 100);
    var frac := [DigitChar(cents / 10 % 10), DigitChar(cents % 10)];
    var s := CentsText(cents);
    var p := |whole|;
    assert s == whole + "." + frac;
    assert s[..p] == whole && s[p + 1..] == frac && s[p] == '.';
    ParsePointed(s, p);
    NatTextValue(cents / 100);
    TwoDigitsValue(cents / 10 % 10, cents % 10);
    CentsDigits(cents);
    assert Pow10(|frac|) == 100;
    assert PointedValue(whole, frac) == (cents / 100) as real + (cents % 100) as real / 100.0;
  }
}
