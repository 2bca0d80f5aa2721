/**
 * The JavaScript number conversions on the converter's path, over exact reals:
 * `Number(text)` (a decimal parser), `x.toFixed(6)`, `Math.round`,
 * and `n.toString(radix)` for non-negative integers.
 */
module JsNumber {
  import opened Wrappers
  import opened JsString

  /** `base` raised to `k`. */
  function Pow(base: nat, k: nat): (r: nat)
    ensures base >= 1 ==> r >= 1
  {
    if k == 0 then 1 else base * Pow(base, k - 1)
  }

  /** The character `toString(radix)` writes for digit `d`: 0-9 then a-z. */
  function DigitChar(d: nat): (c: char)
    requires d < 36
    ensures IsRadixChar(c)
  {
    if d < 10 then ('0' as int + d) as char else ('a' as int + d - 10) as char
  }

  predicate IsRadixChar(c: char) {
    ('0' <= c <= '9') || ('a' <= c <= 'z')
  }

  predicate AllRadix(s: string) {
    forall i :: 0 <= i < |s| ==> IsRadixChar(s[i])
  }

  predicate IsDecimalDigit(c: char) {
    '0' <= c <= '9'
  }

  predicate AllDecimal(s: string) {
    forall i :: 0 <= i < |s| ==> IsDecimalDigit(s[i])
  }

  /** The value of one radix character; the inverse of `DigitChar`. */
  function DigitValue(c: char): (d: nat)
    requires IsRadixChar(c)
    ensures d < 36
  {
    if c <= '9' then c as int - '0' as int else c as int - 'a' as int + 10
  }

  /** `n.toString(base)` for a non-negative integer `n`. */
  function ToRadix(n: nat, base: nat): (r: string)
    requires 2 <= base <= 36
    ensures |r| >= 1
    ensures forall i :: 0 <= i < |r| ==> IsRadixChar(r[i]) && DigitValue(r[i]) < base
    ensures r[0] == '0' ==> n == 0
  {
    if n < base then [DigitChar(n)]
    else
      DivStep(n, base);
      ToRadix(n / base, base) + [DigitChar(n % base)]
  }

  /** One step of digit extraction: the quotient is smaller and positive, the remainder a digit. */
  lemma DivStep(n: nat, base: nat)
    requires 2 <= base <= n
    ensures 1 <= n / base < n
    ensures n % base < base
    ensures n == (n / base) * base + n % base
  {
  }

  /** The value of a digit string read most significant digit first. */
  function FromRadix(s: string, base: nat): nat
    requires AllRadix(s)
  {
    if |s| == 0 then 0
    else FromRadix(s[..|s| - 1], base) * base + DigitValue(s[|s| - 1])
  }

  /** Reading back the digits `toString(base)` writes gives the number. */
  lemma {:induction false} FromRadixToRadix(n: nat, base: nat)
    requires 2 <= base <= 36
    ensures FromRadix(ToRadix(n, base), base) == n
  {
    if n >= base {
      DivStep(n, base);
      var q := ToRadix(n / base, base);
      var r := ToRadix(n, base);
      assert r == q + [DigitChar(n % base)];
      FromRadixToRadix(n / base, base);
      assert r[..|r| - 1] == q;
      DigitRoundTrip(n % base);
      assert DigitValue(r[|r| - 1]) == n % base;
      assert FromRadix(r, base) == FromRadix(q, base) * base + n % base;
    }
  }

  lemma DigitRoundTrip(d: nat)
    requires d < 36
    ensures DigitValue(DigitChar(d)) == d
  {
  }

  /** A number below `base^k` takes at most `k` digits. */
  lemma {:induction false} ToRadixLength(n: nat, base: nat, k: nat)
    requires 2 <= base <= 36
    requires 1 <= k
    requires n < Pow(base, k)
    ensures |ToRadix(n, base)| <= k
  {
    if n >= base {
      DivStep(n, base);
      assert k >= 2;
      assert n / base < Pow(base, k - 1) by {
        assert Pow(base, k) == base * Pow(base, k - 1);
        QuotientBelow(n, base, Pow(base, k - 1));
      }
      ToRadixLength(n / base, base, k - 1);
    }
  }

  lemma QuotientBelow(n: nat, base: nat, p: nat)
    requires 2 <= base && n < base * p
    ensures n / base < p
  {
  }

  /** Leading zeros do not change a digit string's value. */
  lemma {:induction false} FromRadixLeadingZero(s: string, base: nat)
    requires AllRadix(s)
    ensures FromRadix(['0'] + s, base) == FromRadix(s, base)
    decreases |s|
  {
    if |s| > 0 {
      var t := ['0'] + s;
      assert t[..|t| - 1] == ['0'] + s[..|s| - 1];
      FromRadixLeadingZero(s[..|s| - 1], base);
    }
  }

  lemma {:induction false} FromRadixZeros(k: nat, s: string, base: nat)
    requires AllRadix(s)
    ensures FromRadix(Zeros(k) + s, base) == FromRadix(s, base)
  {
    if k > 0 {
      var t := Zeros(k - 1) + s;
      assert AllRadix(t);
      FromRadixZeros(k - 1, s, base);
      assert Zeros(k) + s == ['0'] + t;
      FromRadixLeadingZero(t, base);
    } else {
      assert Zeros(k) + s == s;
    }
  }

  function Zeros(k: nat): (r: string)
    ensures |r| == k
    ensures forall i :: 0 <= i < k ==> r[i] == '0'
  {
    if k == 0 then "" else "0" + Zeros(k - 1)
  }

  /** `Math.round`: the nearest integer, ties toward positive infinity. */
  function Round(y: real): (r: int)
    ensures (r as real) - 0.5 <= y < (r as real) + 0.5
  {
    (y + 0.5).Floor
  }

  /** `Math.abs` on an integer. */
  function Abs(n: int): (r: nat)
    ensures r == n || r == -n
  {
    if n < 0 then -n else n
  }

  /** The number of millionths `toFixed(6)` writes for `|x|`: ties go to the larger integer. */
  function FixedMillionths(x: real): (n: nat)
    ensures x >= 0.0 ==> (n as real) - 0.5 <= x * 1000000.0 < (n as real) + 0.5
    ensures x < 0.0 ==> (n as real) - 0.5 <= -x * 1000000.0 < (n as real) + 0.5
  {
    var ax := if x < 0.0 then -x else x;
    Round(ax * 1000000.0)
  }

  /** The digits of `n`, zero-padded to at least seven so a whole part remains. */
  function PaddedDigits(n: nat): (d: string)
    ensures |d| >= 7
    ensures AllDecimal(d)
    ensures |d| > 7 ==> d[0] != '0'
  {
    var m := ToRadix(n, 10);
    if |m| <= 6 then Zeros(7 - |m|) + m else m
  }

  lemma PaddedDigitsValue(n: nat)
    ensures FromRadix(PaddedDigits(n), 10) == n
  {
    var m := ToRadix(n, 10);
    FromRadixToRadix(n, 10);
    if |m| <= 6 {
      FromRadixZeros(7 - |m|, m, 10);
    }
  }

  /** `x.toFixed(6)` (fixed notation); the sign is written whenever `x` is negative, and
      the whole part has no leading zero unless it is the single digit `0`. */
  function ToFixed6(x: real): (r: string)
    ensures FixedShape(r)
    ensures (r[0] == '-') <==> x < 0.0
    ensures var body := if x < 0.0 then r[1..] else r;
            |body| > 8 ==> body[0] != '0'
  {
    (if x < 0.0 then "-" else "") + Millionths(FixedMillionths(x))
  }

  /** `n` millionths written as whole digits, a point and six fraction digits. */
  function Millionths(n: nat): (r: string)
    ensures |r| >= 8 && r[|r| - 7] == '.'
    ensures AllDecimal(r[..|r| - 7]) && AllDecimal(r[|r| - 6..])
    ensures |r| > 8 ==> r[0] != '0'
  {
    var d := PaddedDigits(n);
    var r := d[..|d| - 6] + "." + d[|d| - 6..];
    assert r[..|r| - 7] == d[..|d| - 6];
    assert r[|r| - 6..] == d[|d| - 6..];
    r
  }

  /** An optional minus sign, at least one digit, a point and exactly six digits. */
  predicate FixedShape(r: string) {
    var body := if |r| > 0 && r[0] == '-' then r[1..] else r;
    |body| >= 8 && body[|body| - 7] == '.'
    && AllDecimal(body[..|body| - 7]) && AllDecimal(body[|body| - 6..])
  }

  /** A parsed decimal literal: `(-1)^negative * digits * 10^exponent`, exactly. */
  datatype Decimal = Decimal(negative: bool, digits: nat, exponent: int) {

    /** The real number the literal denotes. */
    function Value(): real {
      var v := Scale(digits as real, exponent);
      if negative then -v else v
    }
  }

  /** `m * 10^k` for a possibly negative exponent, one decimal shift at a time. */
  function Scale(m: real, k: int): (r: real)
    ensures m >= 0.0 ==> r >= 0.0
    decreases if k < 0 then -k else k
  {
    if k == 0 then m
    else if k > 0 then Scale(m * 10.0, k - 1)
    else Scale(m / 10.0, k + 1)
  }

  /** The decimal `toFixed(6)` writes for `x`: the signed number of millionths. */
  function FixedDecimal(x: real): (d: Decimal)
    ensures d.exponent == -6
    ensures d.Value() - 0.0000005 <= x <= d.Value() + 0.0000005
  {
    var n := FixedMillionths(x);
    var d := Decimal(x < 0.0, n, -6);
    ScaleMillionths(n as real);
    d
  }

  lemma ScaleMillionths(m: real)
    ensures Scale(m, -6) == m / 1000000.0
  {
    calc {
      Scale(m, -6);
      Scale(m / 10.0, -5);
      Scale(m / 100.0, -4);
      Scale(m / 1000.0, -3);
      Scale(m / 10000.0, -2);
      Scale(m / 100000.0, -1);
      Scale(m / 1000000.0, 0);
    }
  }

  /** `Number(text)`: surrounding whitespace ignored, blank text is 0, otherwise a
      signed decimal literal with optional fraction and exponent; anything else is NaN (`None`). */
  function ParseNumber(s: string): (r: Option<Decimal>)
    ensures AllSpace(s) ==> r == Some(Decimal(false, 0, 0))
  {
    var t := Trim(s);
    if |t| == 0 then
      Some(Decimal(false, 0, 0))
    else if t[0] == '-' then
      match ParseUnsigned(t[1..])
      case Some(d) => Some(d.(negative := true))
      case None => None
    else if t[0] == '+' then ParseUnsigned(t[1..])
    else ParseUnsigned(t)
  }

  /** Position of the first `e` or `E`, or `|s|` when there is none. */
  function ExponentMark(s: string): (k: nat)
    ensures k <= |s|
    ensures forall i :: 0 <= i < k ==> s[i] != 'e' && s[i] != 'E'
    ensures k < |s| ==> s[k] == 'e' || s[k] == 'E'
  {
    if |s| == 0 then 0
    else if s[0] == 'e' || s[0] == 'E' then 0
    else 1 + ExponentMark(s[1..])
  }

  /** Position of the first `c`, or `|s|` when there is none. */
  function IndexOf(s: string, c: char): (k: nat)
    ensures k <= |s|
    ensures c !in s[..k]
    ensures k < |s| ==> s[k] == c
  {
    if |s| == 0 then 0
    else if s[0] == c then 0
    else 1 + IndexOf(s[1..], c)
  }

  /** The exponent after `e`: an optional sign and at least one digit. */
  function ParseExponent(s: string): Option<int> {
    var digits := if |s| > 0 && (s[0] == '+' || s[0] == '-') then s[1..] else s;
    if |digits| == 0 || !AllDecimal(digits) then None
    else
      var k: int := FromRadix(digits, 10);
      Some(if s[0] == '-' then -k else k)
  }

  /** An unsigned decimal literal: a mantissa, then an optional exponent. */
  function ParseUnsigned(s: string): (r: Option<Decimal>)
    ensures r.Some? ==> !r.value.negative
  {
    var e := ExponentMark(s);
    var mantissa := ParseMantissa(s[..e]);
    var exponent := if e == |s| then Some(0) else ParseExponent(s[e + 1..]);
    if mantissa.None? || exponent.None? then None
    else Some(Decimal(false, mantissa.value.digits, exponent.value + mantissa.value.exponent))
  }

  /** A mantissa `ddd`, `ddd.`, `ddd.ddd` or `.ddd` (at least one digit in all),
      as its digits and minus the number of fraction digits. */
  function ParseMantissa(m: string): Option<Decimal> {
    var dot := IndexOf(m, '.');
    var whole := m[..dot];
    var fraction := if dot < |m| then m[dot + 1..] else "";
    if !AllDecimal(whole) || !AllDecimal(fraction) || |whole| + |fraction| == 0 then None
    else Some(Decimal(false, FromRadix(whole + fraction, 10), -|fraction|))
  }

  /** What `toFixed(6)` writes, `Number` reads back as the rounded decimal. */
  lemma ParseToFixed6(x: real)
    ensures ParseNumber(ToFixed6(x)) == Some(FixedDecimal(x))
  {
    var n := FixedMillionths(x);
    ParseMillionths(n);
    if x < 0.0 {
      assert ToFixed6(x) == "-" + Millionths(n);
    } else {
      assert ToFixed6(x) == Millionths(n);
    }
  }

  /** `n` millionths, with or without a minus sign, read back as the signed decimal. */
  lemma ParseMillionths(n: nat)
    ensures ParseNumber(Millionths(n)) == Some(Decimal(false, n, -6))
    ensures ParseNumber("-" + Millionths(n)) == Some(Decimal(true, n, -6))
  {
    var body := Millionths(n);
    var d := PaddedDigits(n);
    var whole := body[..|body| - 7];
    var fraction := body[|body| - 6..];
    assert whole + fraction == d;
    assert whole + "." + fraction == body;
    PaddedDigitsValue(n);
    ParseFixedBody(whole, fraction);
    assert Trimmed(body) && IsDecimalDigit(body[0]);
    ParsePlain(body);
    ParseMinus(body, Decimal(false, n, -6));
  }

  /** A trimmed literal that starts with a digit reads as its unsigned value. */
  lemma ParsePlain(body: string)
    requires |body| > 0 && Trimmed(body) && IsDecimalDigit(body[0])
    ensures ParseNumber(body) == ParseUnsigned(body)
  {
    TrimOfTrimmed(body);
  }

  /** A minus sign in front negates the value. */
  lemma ParseMinus(body: string, d: Decimal)
    requires |body| > 0 && Trimmed(body) && IsDecimalDigit(body[0])
    requires ParseUnsigned(body) == Some(d)
    ensures ParseNumber("-" + body) == Some(d.(negative := true))
  {
    var r := "-" + body;
    assert Trimmed(r);
    TrimOfTrimmed(r);
    assert r[1..] == body;
  }

  /** `ddd.dddddd` reads as its digits with exponent -6. */
  lemma ParseFixedBody(whole: string, fraction: string)
    requires |whole| >= 1 && AllDecimal(whole)
    requires |fraction| == 6 && AllDecimal(fraction)
    ensures ParseUnsigned(whole + "." + fraction) == Some(Decimal(false, FromRadix(whole + fraction, 10), -6))
  {
    var body := whole + "." + fraction;
    assert ExponentMark(body) == |body| by {
      DecimalHasNoLetters(whole);
      DecimalHasNoLetters(fraction);
      NoExponentMark(body);
    }
    assert body[..|body|] == body;
    IndexOfAfterPrefix(whole, fraction);
    assert body[..|whole|] == whole;
    assert body[|whole| + 1..] == fraction;
  }

  lemma NoExponentMark(s: string)
    requires 'e' !in s && 'E' !in s
    ensures ExponentMark(s) == |s|
  {
  }

  lemma DecimalHasNoLetters(s: string)
    requires AllDecimal(s)
    ensures 'e' !in s && 'E' !in s && '.' !in s
  {
  }

  lemma IndexOfAfterPrefix(whole: string, fraction: string)
    requires AllDecimal(whole)
    ensures IndexOf(whole + "." + fraction, '.') == |whole|
  {
    if |whole| > 0 {
      assert (whole + "." + fraction)[1..] == whole[1..] + "." + fraction;
      IndexOfAfterPrefix(whole[1..], fraction);
    }
  }
}
