/** Python's decimal conversions: `str(n)` for integers, and `int(text)` and
    `float(text)` for replies from the instrument. Only the ASCII decimal
    grammar is modelled; a `float` is an exact `real`. */
module Numbers {
  import opened Wrappers
  import Text

  predicate IsDigit(c: char) {
    '0' <= c <= '9'
  }

  predicate AllDigits(s: string) {
    forall k :: 0 <= k < |s| ==> IsDigit(s[k])
  }

  function DigitValue(c: char): nat
    requires IsDigit(c)
  {
    c as int - '0' as int
  }

  function DigitChar(d: nat): (c: char)
    requires d < 10
    ensures IsDigit(c) && DigitValue(c) == d
  {
    ('0' as int + d) as char
  }

  /** The value of a string of decimal digits, most significant first. */
  function DigitsValue(s: string): nat
    requires AllDigits(s)
    decreases |s|
  {
    if |s| == 0 then 0 else DigitsValue(s[..|s| - 1]) * 10 + DigitValue(s[|s| - 1])
  }

  /** `str(n)` for a non-negative integer: a non-empty run of digits. */
  function NatToString(n: nat): (s: string)
    ensures |s| > 0 && AllDigits(s)
    decreases n
  {
    if n < 10 then [DigitChar(n)] else NatToString(n / 10) + [DigitChar(n % 10)]
  }

  /** `str(i)` for any integer. */
  function IntToString(i: int): string {
    if i < 0 then "-" + NatToString(-i) else NatToString(i)
  }

  /** Reading back the digits `str(n)` produces gives `n`. */
  lemma {:induction false} NatToStringValue(n: nat)
    ensures DigitsValue(NatToString(n)) == n
    decreases n
  {
    if n >= 10 {
      NatToStringValue(n / 10);
      var s := NatToString(n);
      assert s[..|s| - 1] == NatToString(n / 10);
    }
  }

  /** Different numbers are printed differently. */
  lemma NatToStringInjective(m: nat, n: nat)
    requires NatToString(m) == NatToString(n)
    ensures m == n
  {
    NatToStringValue(m);
    NatToStringValue(n);
  }

  /** Splits an optional leading `+` or `-` off a text; the flag says the
      number is negative. */
  function SplitSign(t: string): (bool, string) {
    if |t| > 0 && (t[0] == '+' || t[0] == '-') then (t[0] == '-', t[1..]) else (false, t)
  }

  /** Scans a run of decimal digits left to right onto `acc`; at least one
      digit must have been seen by the end. */
  function ScanNat(d: string, acc: nat, sawDigit: bool): Option<nat>
    decreases |d|
  {
    if |d| == 0 then (if sawDigit then Some(acc) else None)
    else if IsDigit(d[0]) then ScanNat(d[1..], acc * 10 + DigitValue(d[0]), true)
    else None
  }

  /** An optional sign followed by at least one digit, with nothing around it. */
  function SignedDecimal(t: string): Option<int> {
    var (negative, digits) := SplitSign(t);
    var n :- ScanNat(digits, 0, false);
    Some(if negative then -(n as int) else n)
  }

  /** `int(text)`: surrounding whitespace is ignored, the rest must be a
      signed decimal. */
  function ParseInt(text: string): Option<int> {
    SignedDecimal(Text.Strip(text))
  }

  /** Whether `c` marks an exponent. */
  predicate IsExponentMark(c: char) {
    c == 'e' || c == 'E'
  }

  /** `m * 10^e`, one decimal place at a time. */
  function Shift10(m: real, e: int): real
    decreases if e < 0 then -e else e
  {
    if e == 0 then m
    else if e > 0 then Shift10(m * 10.0, e - 1)
    else Shift10(m / 10.0, e + 1)
  }

  /** Scans an unsigned decimal literal left to right: digits with at most one
      decimal point and at least one digit (`12`, `12.`, `.5`, `12.5`, not `.`),
      then optionally an exponent mark and a signed decimal exponent. `acc`
      holds the digits read so far as one integer and `places` how many of
      them follow the point. */
  function ScanReal(s: string, acc: nat, places: nat, sawPoint: bool, sawDigit: bool): Option<real>
    decreases |s|
  {
    if |s| == 0 then
      if sawDigit then Some(Shift10(acc as real, -(places as int))) else None
    else if IsDigit(s[0]) then
      ScanReal(s[1..], acc * 10 + DigitValue(s[0]), if sawPoint then places + 1 else places, sawPoint, true)
    else if s[0] == '.' && !sawPoint then
      ScanReal(s[1..], acc, places, true, sawDigit)
    else if IsExponentMark(s[0]) && sawDigit then
      match SignedDecimal(s[1..])
      case Some(e) => Some(Shift10(acc as real, e - places))
      case None => None
    else None
  }

  /** `float(text)` over the reals: surrounding whitespace is ignored, then an
      optional sign and an unsigned decimal literal. */
  function ParseReal(text: string): Option<real> {
    var (negative, body) := SplitSign(Text.Strip(text));
    var v :- ScanReal(body, 0, 0, false, false);
    Some(if negative then -v else v)
  }

  /** The digits of `d` appended, in order, to the integer `acc`. */
  function Accumulate(acc: nat, d: string): nat
    requires AllDigits(d)
    decreases |d|
  {
    if |d| == 0 then acc else Accumulate(acc * 10 + DigitValue(d[0]), d[1..])
  }

  lemma {:induction false} AccumulateSnoc(acc: nat, d: string, c: char)
    requires AllDigits(d) && IsDigit(c)
    ensures AllDigits(d + [c])
    ensures Accumulate(acc, d + [c]) == Accumulate(acc, d) * 10 + DigitValue(c)
    decreases |d|
  {
    if |d| > 0 {
      assert (d + [c])[1..] == d[1..] + [c];
      AccumulateSnoc(acc * 10 + DigitValue(d[0]), d[1..], c);
    }
  }

  /** Reading digits left to right gives the same number as `DigitsValue`. */
  lemma {:induction false} AccumulateValue(d: string)
    requires AllDigits(d)
    ensures Accumulate(0, d) == DigitsValue(d)
    decreases |d|
  {
    if |d| > 0 {
      var init := d[..|d| - 1];
      AccumulateValue(init);
      AccumulateSnoc(0, init, d[|d| - 1]);
      assert init + [d[|d| - 1]] == d;
    }
  }

  /** The digit scanner accepts exactly the non-empty runs of digits (any run
      once a digit has been seen) and reads them as `Accumulate` does. */
  lemma {:induction false} ScanNatSpec(d: string, acc: nat, sawDigit: bool)
    ensures ScanNat(d, acc, sawDigit).Some? <==> AllDigits(d) && (|d| > 0 || sawDigit)
    ensures ScanNat(d, acc, sawDigit).Some? ==> ScanNat(d, acc, sawDigit).value == Accumulate(acc, d)
    decreases |d|
  {
    if |d| > 0 {
      ScanNatSpec(d[1..], acc * 10 + (if IsDigit(d[0]) then DigitValue(d[0]) else 0), true);
      assert AllDigits(d) <==> IsDigit(d[0]) && AllDigits(d[1..]);
    }
  }

  /** On a run of digits the scanner reads an integer. */
  lemma {:induction false} ScanDigits(d: string, acc: nat, sawDigit: bool)
    requires AllDigits(d)
    requires |d| > 0 || sawDigit
    ensures ScanReal(d, acc, 0, false, sawDigit) == Some(Accumulate(acc, d) as real)
    decreases |d|
  {
    if |d| > 0 {
      ScanDigits(d[1..], acc * 10 + DigitValue(d[0]), true);
    }
  }

  /** `str(i)` is a signed decimal denoting `i`. */
  lemma IntToStringDecimal(i: int)
    ensures SignedDecimal(IntToString(i)) == Some(i)
  {
    var s := IntToString(i);
    var n: nat := if i < 0 then -i else i;
    var digits := NatToString(n);
    NatToStringValue(n);
    AccumulateValue(digits);
    ScanNatSpec(digits, 0, false);
    if i < 0 {
      assert s[1..] == digits;
    }
  }

  /** `int(str(i) + pad) == i` for any whitespace padding, such as the line
      terminator an instrument reply ends with. */
  lemma IntToStringRoundTrip(i: int, pad: string)
    requires Text.AllSpace(pad)
    ensures ParseInt(IntToString(i) + pad) == Some(i)
  {
    var s := IntToString(i);
    assert s + pad == [] + s + pad;
    Text.StripPadded([], s, pad);
    IntToStringDecimal(i);
  }

  /** Every text `int()` accepts is accepted by `float()` with the same value. */
  lemma IntSyntaxIsRealSyntax(text: string)
    requires ParseInt(text).Some?
    ensures ParseReal(text) == Some(ParseInt(text).value as real)
  {
    var (negative, body) := SplitSign(Text.Strip(text));
    ScanNatSpec(body, 0, false);
    ScanDigits(body, 0, false);
  }

  /** `10^e` for any integer `e`, as an exact real: `10 * 10^(e-1)` above
      zero and `10^(e+1) / 10` below. */
  function Pow10(e: int): (p: real)
    ensures p > 0.0
    decreases if e < 0 then -e else e
  {
    if e == 0 then 1.0
    else if e > 0 then 10.0 * Pow10(e - 1)
    else Pow10(e + 1) / 10.0
  }

  /** Shifting one decimal place at a time multiplies by the power of ten. */
  lemma {:induction false} Shift10Value(m: real, e: int)
    ensures Shift10(m, e) == m * Pow10(e)
    decreases if e < 0 then -e else e
  {
    if e > 0 {
      Shift10Value(m * 10.0, e - 1);
      assert (m * 10.0) * Pow10(e - 1) == m * (10.0 * Pow10(e - 1));
    } else if e < 0 {
      Shift10Value(m / 10.0, e + 1);
      assert (m / 10.0) * Pow10(e + 1) == m * (Pow10(e + 1) / 10.0);
    }
  }

  /** The digits of `d` appended to `acc` and then those of `d'` are the
      digits of `d + d'` appended to `acc`. */
  lemma {:induction false} AccumulateConcat(acc: nat, d: string, d': string)
    requires AllDigits(d) && AllDigits(d')
    ensures AllDigits(d + d')
    ensures Accumulate(acc, d + d') == Accumulate(Accumulate(acc, d), d')
    decreases |d|
  {
    if |d| > 0 {
      assert (d + d')[0] == d[0];
      assert (d + d')[1..] == d[1..] + d';
      AccumulateConcat(acc * 10 + DigitValue(d[0]), d[1..], d');
    } else {
      assert d + d' == d';
    }
  }

  /** The real scanner consumes a run of digits onto its accumulator,
      counting them as decimal places after the point. */
  lemma {:induction false} ScanRealDigits(d: string, rest: string, acc: nat, places: nat, sawPoint: bool, sawDigit: bool)
    requires AllDigits(d)
    ensures ScanReal(d + rest, acc, places, sawPoint, sawDigit)
         == ScanReal(rest, Accumulate(acc, d), if sawPoint then places + |d| else places, sawPoint, sawDigit || |d| > 0)
    decreases |d|
  {
    if |d| > 0 {
      assert (d + rest)[0] == d[0];
      assert (d + rest)[1..] == d[1..] + rest;
      ScanRealDigits(d[1..], rest, acc * 10 + DigitValue(d[0]), if sawPoint then places + 1 else places, sawPoint, true);
    } else {
      assert d + rest == rest;
    }
  }

  /** A signed decimal is a sign character or digit, then digits: no
      whitespace and no decimal point anywhere, and it ends with a digit. */
  lemma SignedDecimalShape(t: string)
    requires SignedDecimal(t).Some?
    ensures |t| > 0 && IsDigit(t[|t| - 1])
    ensures forall k :: 0 <= k < |t| ==> IsDigit(t[k]) || t[k] == '+' || t[k] == '-'
  {
    var (negative, digits) := SplitSign(t);
    ScanNatSpec(digits, 0, false);
    if |t| > 0 && (t[0] == '+' || t[0] == '-') {
      assert forall k :: 1 <= k < |t| ==> t[k] == digits[k - 1];
    }
  }

  /** The exponent part of a literal: an exponent mark and a signed decimal,
      or nothing. */
  function ExponentText(exponent: Option<(char, string)>): string {
    match exponent
    case None => ""
    case Some((mark, e)) => [mark] + e
  }

  /** The exponent a literal's exponent part denotes; none means zero. */
  function ExponentValue(exponent: Option<(char, string)>): int {
    match exponent
    case Some((_, e)) => (if SignedDecimal(e).Some? then SignedDecimal(e).value else 0)
    case None => 0
  }

  predicate WellFormedExponent(exponent: Option<(char, string)>) {
    exponent.Some? ==> IsExponentMark(exponent.value.0) && SignedDecimal(exponent.value.1).Some?
  }

  /** The fraction part of a literal: a point and the fraction digits, or
      nothing. */
  function FractionText(point: bool, b: string): string {
    if point then "." + b else ""
  }

  /** A decimal literal without its sign: the integer digits `a`, the
      fraction part and the exponent part. */
  function UnsignedLiteral(a: string, point: bool, b: string, exponent: Option<(char, string)>): string {
    a + (FractionText(point, b) + ExponentText(exponent))
  }

  /** The text of a decimal literal `float()` reads: an optional sign, the
      integer digits `a`, optionally a point and the fraction digits `b`, and
      optionally an exponent part. */
  function RealLiteral(sign: string, a: string, point: bool, b: string, exponent: Option<(char, string)>): string {
    sign + UnsignedLiteral(a, point, b, exponent)
  }

  /** The value of a decimal literal from its parts: the digits `a` and `b`
      read as one integer, scaled by ten to the exponent less the number of
      fraction digits, and negated after a minus sign. */
  function LiteralValue(sign: string, a: string, b: string, exponent: int): real
    requires AllDigits(a + b)
  {
    var v := DigitsValue(a + b) as real * Pow10(exponent - |b|);
    if sign == "-" then -v else v
  }

  /** A literal's value is its digits shifted by the exponent less the
      fraction digits, negated after a minus sign. */
  lemma LiteralValueShift(sign: string, a: string, b: string, exponent: int)
    requires AllDigits(a + b)
    ensures LiteralValue(sign, a, b, exponent)
         == var v := Shift10(DigitsValue(a + b) as real, exponent - |b|); if sign == "-" then -v else v
  {
    Shift10Value(DigitsValue(a + b) as real, exponent - |b|);
  }

  /** At the end of the digits, the scanner applies the exponent part: none
      shifts by the decimal places alone, an exponent mark and a signed
      decimal by that exponent less the decimal places. */
  lemma ScanRealExponent(acc: nat, places: nat, sawPoint: bool, exponent: Option<(char, string)>)
    requires WellFormedExponent(exponent)
    ensures ScanReal(ExponentText(exponent), acc, places, sawPoint, true)
         == Some(Shift10(acc as real, ExponentValue(exponent) - places))
  {
    if exponent.Some? {
      var (mark, e) := exponent.value;
      var t := [mark] + e;
      assert ExponentText(exponent) == t;
      assert t[0] == mark && t[1..] == e;
    }
  }

  /** After the integer digits, the scanner reads an optional point and the
      fraction digits, counting them as decimal places. */
  lemma ScanRealFraction(point: bool, b: string, tail: string, acc: nat, sawDigit: bool)
    requires AllDigits(b) && (point || b == "")
    ensures ScanReal(FractionText(point, b) + tail, acc, 0, false, sawDigit)
         == ScanReal(tail, Accumulate(acc, b), |b|, point, sawDigit || |b| > 0)
  {
    var mid := FractionText(point, b);
    if point {
      assert (mid + tail)[0] == '.';
      assert (mid + tail)[1..] == b + tail;
      ScanRealDigits(b, tail, acc, 0, true, sawDigit);
    } else {
      assert mid + tail == tail;
    }
  }

  /** The scanner reads the unsigned part of a literal digit by digit, then
      shifts by the exponent less the fraction digits. */
  lemma ScanUnsignedLiteral(a: string, point: bool, b: string, exponent: Option<(char, string)>)
    requires AllDigits(a) && AllDigits(b) && |a| + |b| > 0 && (point || b == "")
    requires WellFormedExponent(exponent)
    ensures ScanReal(UnsignedLiteral(a, point, b, exponent), 0, 0, false, false)
         == Some(Shift10(Accumulate(Accumulate(0, a), b) as real, ExponentValue(exponent) - |b|))
  {
    var tail := ExponentText(exponent);
    var mid := FractionText(point, b);
    var acc := Accumulate(0, a);
    var n := Accumulate(acc, b);
    calc {
      ScanReal(a + (mid + tail), 0, 0, false, false);
      { ScanRealDigits(a, mid + tail, 0, 0, false, false); }
      ScanReal(mid + tail, acc, 0, false, |a| > 0);
      { ScanRealFraction(point, b, tail, acc, |a| > 0); }
      ScanReal(tail, n, |b|, point, true);
      { ScanRealExponent(n, |b|, point, exponent); }
      Some(Shift10(n as real, ExponentValue(exponent) - |b|));
    }
  }

  /** The scanner reads the unsigned part of a literal as its digits shifted
      by the exponent less the fraction digits. */
  lemma ScanRealLiteral(a: string, point: bool, b: string, exponent: Option<(char, string)>)
    requires AllDigits(a) && AllDigits(b) && |a| + |b| > 0 && (point || b == "")
    requires WellFormedExponent(exponent)
    ensures AllDigits(a + b)
    ensures ScanReal(UnsignedLiteral(a, point, b, exponent), 0, 0, false, false)
         == Some(Shift10(DigitsValue(a + b) as real, ExponentValue(exponent) - |b|))
  {
    ScanUnsignedLiteral(a, point, b, exponent);
    AccumulateConcat(0, a, b);
    AccumulateValue(a + b);
  }

  /** The length of the run of digits `s` starts with. */
  function DigitRun(s: string): (n: nat)
    ensures n <= |s| && AllDigits(s[..n]) && (n == |s| || !IsDigit(s[n]))
    decreases |s|
  {
    if |s| > 0 && IsDigit(s[0]) then
      var n := 1 + DigitRun(s[1..]);
      assert s[..n] == [s[0]] + s[1..][..n - 1];
      n
    else 0
  }

  /** Once the digits are used up, the scanner accepts only the end of the
      text after some digit, or an exponent mark after some digit followed
      by a signed decimal. */
  lemma ScanRealEndShape(r: string, acc: nat, places: nat, sawPoint: bool, sawDigit: bool)
    requires |r| == 0 || (!IsDigit(r[0]) && (sawPoint || r[0] != '.'))
    requires ScanReal(r, acc, places, sawPoint, sawDigit).Some?
    ensures sawDigit
    ensures |r| == 0 || (IsExponentMark(r[0]) && SignedDecimal(r[1..]).Some?)
  {
  }

  /** The exponent part a text after the digits spells, if it is one. */
  function ExponentOf(r: string): Option<(char, string)> {
    if |r| == 0 then None else Some((r[0], r[1..]))
  }

  lemma ExponentOfText(r: string)
    ensures ExponentText(ExponentOf(r)) == r
  {
    if |r| > 0 {
      assert [r[0]] + r[1..] == r;
    }
  }

  /** After a point, the scanner accepts only fraction digits followed by an
      optional exponent part, with a digit somewhere. */
  lemma ScanFractionAccepts(t: string, acc: nat, sawDigit: bool) returns (b: string, exponent: Option<(char, string)>)
    requires ScanReal(t, acc, 0, true, sawDigit).Some?
    ensures AllDigits(b) && (sawDigit || |b| > 0)
    ensures WellFormedExponent(exponent)
    ensures t == b + ExponentText(exponent)
  {
    var m := DigitRun(t);
    b := t[..m];
    var tail := t[m..];
    assert t == b + tail;
    ScanRealDigits(b, tail, acc, 0, true, sawDigit);
    ScanRealEndShape(tail, Accumulate(acc, b), |b|, true, sawDigit || |b| > 0);
    exponent := ExponentOf(tail);
    ExponentOfText(tail);
  }

  /** After the integer digits, the scanner accepts only an optional fraction
      part and an optional exponent part, with a digit somewhere. */
  lemma ScanAfterDigitsAccepts(rest: string, acc: nat, sawDigit: bool)
    returns (point: bool, b: string, exponent: Option<(char, string)>)
    requires |rest| == 0 || !IsDigit(rest[0])
    requires ScanReal(rest, acc, 0, false, sawDigit).Some?
    ensures AllDigits(b) && (sawDigit || |b| > 0) && (point || b == "")
    ensures WellFormedExponent(exponent)
    ensures rest == FractionText(point, b) + ExponentText(exponent)
  {
    if |rest| > 0 && rest[0] == '.' {
      point := true;
      var t := rest[1..];
      assert ScanReal(rest, acc, 0, false, sawDigit) == ScanReal(t, acc, 0, true, sawDigit);
      b, exponent := ScanFractionAccepts(t, acc, sawDigit);
      var e := ExponentText(exponent);
      assert rest == "." + t;
      assert "." + (b + e) == ("." + b) + e;
    } else {
      point := false;
      b := "";
      ScanRealEndShape(rest, acc, 0, false, sawDigit);
      exponent := ExponentOf(rest);
      ExponentOfText(rest);
      assert FractionText(point, b) + rest == rest;
    }
  }

  /** The converse of `ScanRealLiteral`: every text the scanner accepts from
      its start state is the unsigned part of a decimal literal. */
  lemma ScanRealAccepts(s: string) returns (a: string, point: bool, b: string, exponent: Option<(char, string)>)
    requires ScanReal(s, 0, 0, false, false).Some?
    ensures AllDigits(a) && AllDigits(b) && |a| + |b| > 0 && (point || b == "")
    ensures WellFormedExponent(exponent)
    ensures s == UnsignedLiteral(a, point, b, exponent)
  {
    var n := DigitRun(s);
    a := s[..n];
    var rest := s[n..];
    assert s == a + rest;
    ScanRealDigits(a, rest, 0, 0, false, false);
    point, b, exponent := ScanAfterDigitsAccepts(rest, Accumulate(0, a), |a| > 0);
  }

  /** The characters a decimal literal is written with. */
  predicate LiteralChar(c: char) {
    IsDigit(c) || c == '+' || c == '-' || c == '.' || IsExponentMark(c)
  }

  /** A literal is written with literal characters only, so it has no
      whitespace to strip. */
  lemma LiteralChars(sign: string, a: string, point: bool, b: string, exponent: Option<(char, string)>)
    requires sign == "" || sign == "+" || sign == "-"
    requires AllDigits(a) && AllDigits(b)
    requires WellFormedExponent(exponent)
    ensures var lit := RealLiteral(sign, a, point, b, exponent);
      forall k :: 0 <= k < |lit| ==> LiteralChar(lit[k])
  {
    var mid := FractionText(point, b);
    var tail := ExponentText(exponent);
    if exponent.Some? {
      SignedDecimalShape(exponent.value.1);
      assert forall k :: 1 <= k < |tail| ==> tail[k] == exponent.value.1[k - 1];
    }
    assert forall k :: 0 <= k < |mid| ==> LiteralChar(mid[k]);
    assert forall k :: 0 <= k < |tail| ==> LiteralChar(tail[k]);
    var lit := sign + (a + (mid + tail));
    assert RealLiteral(sign, a, point, b, exponent) == lit;
    forall k | 0 <= k < |lit|
      ensures LiteralChar(lit[k])
    {
      if k < |sign| {
        assert lit[k] == sign[k];
      } else if k < |sign| + |a| {
        assert lit[k] == a[k - |sign|];
      } else if k < |sign| + |a| + |mid| {
        assert lit[k] == mid[k - |sign| - |a|];
      } else {
        assert lit[k] == tail[k - |sign| - |a| - |mid|];
      }
    }
  }

  /** Stripping the padding around a non-empty text written with literal
      characters leaves the text. */
  lemma StripLiteralPadding(pad: string, x: string, pad': string)
    requires Text.AllSpace(pad) && Text.AllSpace(pad')
    requires |x| > 0 && forall k :: 0 <= k < |x| ==> LiteralChar(x[k])
    ensures Text.Strip(pad + x + pad') == x
  {
    assert LiteralChar(x[0]) && LiteralChar(x[|x| - 1]);
    Text.StripPadded(pad, x, pad');
  }

  /** The unsigned part of a literal starts with a digit or the point. */
  lemma UnsignedLiteralStart(a: string, point: bool, b: string, exponent: Option<(char, string)>)
    requires |a| + |b| > 0 && (point || b == "") && AllDigits(a)
    ensures var body := UnsignedLiteral(a, point, b, exponent);
      |body| > 0 && (IsDigit(body[0]) || body[0] == '.')
  {
    var rest := FractionText(point, b) + ExponentText(exponent);
    if |a| > 0 {
      assert (a + rest)[0] == a[0];
    } else {
      assert a + rest == rest;
      assert rest[0] == '.';
    }
  }

  /** Stripping the padding around a literal leaves the literal. */
  lemma StripRealLiteral(pad: string, sign: string, a: string, point: bool, b: string,
                         exponent: Option<(char, string)>, pad': string)
    requires Text.AllSpace(pad) && Text.AllSpace(pad')
    requires sign == "" || sign == "+" || sign == "-"
    requires AllDigits(a) && AllDigits(b) && |a| + |b| > 0 && (point || b == "")
    requires WellFormedExponent(exponent)
    ensures Text.Strip(pad + RealLiteral(sign, a, point, b, exponent) + pad') == RealLiteral(sign, a, point, b, exponent)
  {
    LiteralChars(sign, a, point, b, exponent);
    UnsignedLiteralStart(a, point, b, exponent);
    StripLiteralPadding(pad, RealLiteral(sign, a, point, b, exponent), pad');
  }

  /** The sign of `sign + body` splits off when `body` starts with neither
      sign character. */
  lemma SplitSignOf(sign: string, body: string)
    requires sign == "" || sign == "+" || sign == "-"
    requires |body| > 0 && body[0] != '+' && body[0] != '-'
    ensures SplitSign(sign + body) == (sign == "-", body)
  {
    if |sign| > 0 {
      assert (sign + body)[1..] == body;
    } else {
      assert sign + body == body;
    }
  }

  /** `float()` reads a text whose stripped form splits into a sign and an
      unsigned part the scanner accepts. */
  lemma ParseRealOf(text: string, negative: bool, body: string, v: real)
    requires SplitSign(Text.Strip(text)) == (negative, body)
    requires ScanReal(body, 0, 0, false, false) == Some(v)
    ensures ParseReal(text) == Some(if negative then -v else v)
  {
  }

  /** `float()` on a padded literal: its digits shifted by the exponent less
      the fraction digits, negated after a minus sign. */
  lemma ParseRealLiteralShift(pad: string, sign: string, a: string, point: bool, b: string,
                              exponent: Option<(char, string)>, pad': string)
    requires Text.AllSpace(pad) && Text.AllSpace(pad')
    requires sign == "" || sign == "+" || sign == "-"
    requires AllDigits(a) && AllDigits(b) && |a| + |b| > 0 && (point || b == "")
    requires WellFormedExponent(exponent)
    ensures AllDigits(a + b)
    ensures ParseReal(pad + RealLiteral(sign, a, point, b, exponent) + pad')
         == Some(var v := Shift10(DigitsValue(a + b) as real, ExponentValue(exponent) - |b|); if sign == "-" then -v else v)
  {
    var lit := RealLiteral(sign, a, point, b, exponent);
    var body := UnsignedLiteral(a, point, b, exponent);
    StripRealLiteral(pad, sign, a, point, b, exponent, pad');
    UnsignedLiteralStart(a, point, b, exponent);
    SplitSignOf(sign, body);
    ScanRealLiteral(a, point, b, exponent);
    var v := Shift10(DigitsValue(a + b) as real, ExponentValue(exponent) - |b|);
    ParseRealOf(pad + lit + pad', sign == "-", body, v);
  }

  /** `float()` on any decimal literal, with any whitespace around it: the
      value is the integer and fraction digits read as one integer, times ten
      to the exponent less the number of fraction digits, negated after a
      minus sign. This covers the forms with and without a point, with and
      without an exponent, and with either exponent mark. */
  lemma ParseRealLiteral(pad: string, sign: string, a: string, point: bool, b: string,
                         exponent: Option<(char, string)>, pad': string)
    requires Text.AllSpace(pad) && Text.AllSpace(pad')
    requires sign == "" || sign == "+" || sign == "-"
    requires AllDigits(a) && AllDigits(b) && |a| + |b| > 0 && (point || b == "")
    requires WellFormedExponent(exponent)
    ensures AllDigits(a + b)
    ensures ParseReal(pad + RealLiteral(sign, a, point, b, exponent) + pad')
         == Some(LiteralValue(sign, a, b, ExponentValue(exponent)))
  {
    ParseRealLiteralShift(pad, sign, a, point, b, exponent, pad');
    LiteralValueShift(sign, a, b, ExponentValue(exponent));
  }

  /** The converse of `ParseRealLiteral`: `float()` accepts nothing but a
      whitespace-padded decimal literal, so every other text raises. */
  lemma ParseRealAccepts(t: string)
    requires ParseReal(t).Some?
    ensures exists pad, sign, a, point, b, exponent, pad' ::
      && Text.AllSpace(pad) && Text.AllSpace(pad')
      && (sign == "" || sign == "+" || sign == "-")
      && AllDigits(a) && AllDigits(b) && |a| + |b| > 0 && (point || b == "")
      && WellFormedExponent(exponent)
      && t == pad + RealLiteral(sign, a, point, b, exponent) + pad'
  {
    var pad, pad' := Text.StripDecompose(t);
    var lit := Text.Strip(t);
    var (negative, body) := SplitSign(lit);
    var sign := if |lit| > 0 && (lit[0] == '+' || lit[0] == '-') then lit[..1] else "";
    assert lit == sign + body;
    var a, point, b, exponent := ScanRealAccepts(body);
    assert t == pad + RealLiteral(sign, a, point, b, exponent) + pad';
  }

  /** `float` reads a fraction with no integer part and a leading sign. */
  lemma ParseRealFractionExample()
    ensures ParseReal("-.5") == Some(-0.5)
  {
    assert Text.Strip("-.5") == "-.5";
    assert SplitSign("-.5") == (true, ".5");
    assert ".5"[1..] == "5";
    assert "5"[1..] == "";
    assert Shift10(5.0, -1) == 0.5;
    assert ScanReal("5", 0, 0, true, false) == Some(0.5);
  }

  /** `float` reads a reply in exponent notation, padding and line end
      included, exactly. */
  lemma ParseRealExponentExample()
    ensures ParseReal(" 2.5e-3\n") == Some(0.0025)
  {
    assert Text.Strip(" 2.5e-3\n") == "2.5e-3" by {
      assert " 2.5e-3\n" == " " + "2.5e-3" + "\n";
      Text.StripPadded(" ", "2.5e-3", "\n");
    }
    assert SplitSign("2.5e-3") == (false, "2.5e-3");
    assert ScanNat("3", 0, false) == Some(3);
    assert SignedDecimal("-3") == Some(-3);
    assert Shift10(0.025, -1) == 0.0025;
    assert Shift10(2.5, -3) == 0.0025;
    assert Shift10(25.0, -4) == 0.0025;
    assert ScanReal("e-3", 25, 1, true, true) == Some(0.0025);
    assert ScanReal("5e-3", 2, 0, true, true) == Some(0.0025);
    assert ScanReal(".5e-3", 2, 0, false, true) == Some(0.0025);
  }

  /** `int` takes a sign and leading zeros but no decimal point. */
  lemma ParseIntExamples()
    ensures ParseInt("+007\n") == Some(7)
    ensures ParseInt("1.0").None?
  {
    assert Text.Strip("+007\n") == "+007" by {
      assert "+007\n" == "" + "+007" + "\n";
      Text.StripPadded("", "+007", "\n");
    }
    assert Text.Strip("1.0") == "1.0" by {
      assert "1.0" == "" + "1.0" + "";
      Text.StripPadded("", "1.0", "");
    }
  }

  /** `int` does not skip the ASCII separator U+001C, though `str.isspace`
      counts it as whitespace. */
  lemma ParseIntSeparatorExample()
    ensures ParseInt("\U{1c}7").None?
  {
    assert !Text.IsSpace('\U{1c}');
    assert Text.Strip("\U{1c}7") == "\U{1c}7";
  }
}
