/** Decimal rendering of integers, as `Integer.toString` and `BigDecimal.toString` print
    them, with parsers that read the renderings back. */
module Text {
  import opened Wrappers

  predicate IsDigit(c: char) {
    '0' <= c <= '9'
  }

  predicate AllDigits(s: string) {
    forall i :: 0 <= i < |s| ==> IsDigit(s[i])
  }

  function DigitChar(d: nat): (c: char)
    requires d < 10
    ensures IsDigit(c) && c as int - '0' as int == d
  {
    ('0' as int + d) as char
  }

  function DigitValue(c: char): (d: nat)
    requires IsDigit(c)
    ensures d < 10
  {
    c as int - '0' as int
  }

  /** The shortest decimal numeral of `n`: no leading zero except for zero itself. */
  function NatToString(n: nat): (s: string)
    ensures 1 <= |s| && AllDigits(s)
    ensures |s| > 1 ==> s[0] != '0'
    decreases n
  {
    if n < 10 then [DigitChar(n)] else NatToString(n / 10) + [DigitChar(n % 10)]
  }

  /** The value of a string of decimal digits (the empty string reads as zero). */
  function DigitsValue(s: string): nat
    requires AllDigits(s)
  {
    if |s| == 0 then 0 else DigitsValue(s[..|s| - 1]) * 10 + DigitValue(s[|s| - 1])
  }

  lemma {:induction false} NatToStringRoundTrip(n: nat)
    ensures DigitsValue(NatToString(n)) == n
    decreases n
  {
    var s := NatToString(n);
    if n >= 10 {
      NatToStringRoundTrip(n / 10);
      assert s[..|s| - 1] == NatToString(n / 10);
    }
  }

  function IntToString(n: int): string {
    if n < 0 then "-" + NatToString(-n) else NatToString(n)
  }

  /** `BigDecimal.toString` of a scale-2 value given by its unscaled integer `n`
      (a scale-2 value never reaches the exponent form): an optional minus sign, the
      integer part, a point and exactly two fraction digits. */
  function HundredthsToString(n: int): (s: string)
    ensures |s| >= 4 && s[|s| - 3] == '.'
  {
    var m := if n < 0 then -n else n;
    var body := NatToString(m / 100) + "." + [DigitChar(m % 100 / 10), DigitChar(m % 10)];
    if n < 0 then "-" + body else body
  }

  /** Reads a rendering of the form `[-]digits.dd` back into hundredths. */
  function ParseHundredths(s: string): Option<int> {
    var negative := |s| > 0 && s[0] == '-';
    match ParseUnsigned(if negative then s[1..] else s)
    case None => None
    case Some(m) => Some(if negative then -(m as int) else m)
  }

  /** Reads `digits.dd` into hundredths. */
  function ParseUnsigned(body: string): Option<nat> {
    if |body| < 4 || body[|body| - 3] != '.' then None
    else
      var whole, fraction := body[..|body| - 3], body[|body| - 2..];
      if !AllDigits(whole) || !AllDigits(fraction) then None
      else Some(DigitsValue(whole) * 100 + DigitsValue(fraction))
  }

  /** Rendering a DTI or any other scale-2 amount loses nothing. */
  lemma HundredthsRoundTrip(n: int)
    ensures ParseHundredths(HundredthsToString(n)) == Some(n)
  {
    var m := if n < 0 then -n else n;
    var whole := NatToString(m / 100);
    var body := whole + "." + [DigitChar(m % 100 / 10), DigitChar(m % 10)];
    UnsignedRoundTrip(m);
    assert ParseUnsigned(body) == Some(m);
    var s := HundredthsToString(n);
    if n < 0 {
      assert s == "-" + body;
      assert s[1..] == body;
    } else {
      assert s == body;
      assert body[0] == whole[0] && IsDigit(whole[0]);
    }
  }

  /** The unsigned part of a rendering reads back as the magnitude. */
  lemma UnsignedRoundTrip(m: nat)
    ensures ParseUnsigned(NatToString(m / 100) + "." + [DigitChar(m % 100 / 10), DigitChar(m % 10)]) == Some(m)
  {
    var fraction := [DigitChar(m % 100 / 10), DigitChar(m % 10)];
    ParseSplit(NatToString(m / 100), fraction);
    NatToStringRoundTrip(m / 100);
    FractionDigits(m);
  }

  lemma ParseSplit(whole: string, fraction: string)
    requires AllDigits(whole) && AllDigits(fraction) && |whole| >= 1 && |fraction| == 2
    ensures ParseUnsigned(whole + "." + fraction) == Some(DigitsValue(whole) * 100 + DigitsValue(fraction))
  {
    var body := whole + "." + fraction;
    assert |body| == |whole| + 3 && body[|whole|] == '.';
    assert body[..|body| - 3] == whole;
    assert body[|body| - 2..] == fraction;
  }

  /** The two fraction digits read back as the hundredths. */
  lemma FractionDigits(m: nat)
    ensures DigitsValue([DigitChar(m % 100 / 10), DigitChar(m % 10)]) == m % 100
  {
    var fraction := [DigitChar(m % 100 / 10), DigitChar(m % 10)];
    assert fraction[..1] == [fraction[0]];
    assert [fraction[0]][..0] == [];
    assert DigitsValue([fraction[0]]) == m % 100 / 10;
    var r := m % 100;
    assert m % 10 == r % 10 by {
      assert m == (m / 100) * 100 + r;
      assert m == ((m / 100) * 10 + r / 10) * 10 + r % 10;
    }
  }
}
