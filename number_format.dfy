/**
 * The exporter's number formatter: a real is rounded to a given number of
 * decimal places and written in plain positional notation, without trailing
 * zeros after the decimal point and without a dangling decimal point.
 */
module NumberFormat {
  import opened Wrappers

  /** 10 to the power k. */
  function Pow10(k: nat): (r: nat)
    ensures r >= 1
  {
    if k == 0 then 1 else 10 * Pow10(k - 1)
  }

  lemma {:induction false} Pow10Add(a: nat, b: nat)
    ensures Pow10(a + b) == Pow10(a) * Pow10(b)
  {
    if b > 0 {
      Pow10Add(a, b - 1);
      assert Pow10(a + b) == 10 * Pow10(a + b - 1);
    }
  }

  function Abs(r: int): nat
  {
    if r < 0 then -r else r
  }

  /**
   * The integer nearest to x. A value exactly half-way between two integers
   * goes to the even one, as Python's fixed-point formatting does.
   */
  function RoundHalfEven(x: real): (r: int)
    ensures -1.0 <= 2.0 * (r as real - x) <= 1.0
  {
    var f := x.Floor;
    var fraction := x - f as real;
    if fraction < 0.5 then f
    else if fraction > 0.5 then f + 1
    else if f % 2 == 0 then f
    else f + 1
  }

  /** x with its decimal point moved k places to the right. */
  function Shifted(x: real, k: nat): real
  {
    if k == 0 then x else Shifted(x, k - 1) * 10.0
  }

  lemma {:induction false} ShiftedIsScaled(x: real, k: nat)
    ensures Shifted(x, k) == x * Pow10(k) as real
  {
    if k > 0 {
      ShiftedIsScaled(x, k - 1);
      assert Pow10(k) as real == (Pow10(k - 1) as real) * 10.0;
    }
  }

  /** x rounded to `precision` decimal places, as a count of units of 10^-precision. */
  function Rounded(x: real, precision: nat): int
  {
    RoundHalfEven(Shifted(x, precision))
  }

  /** Rounding moves a value by at most half a unit in the last kept place. */
  lemma RoundedIsNearest(x: real, precision: nat)
    ensures var scaled := x * Pow10(precision) as real;
            -1.0 <= 2.0 * (Rounded(x, precision) as real - scaled) <= 1.0
  {
    ShiftedIsScaled(x, precision);
  }

  // ---------------------------------------------------------------------
  // Digits

  predicate IsDigit(c: char)
  {
    '0' <= c <= '9'
  }

  predicate AllDigits(s: string)
  {
    forall i :: 0 <= i < |s| ==> IsDigit(s[i])
  }

  function DigitChar(d: nat): (c: char)
    requires d < 10
    ensures IsDigit(c)
  {
    (48 + d) as char
  }

  function DigitValue(c: char): (d: nat)
    requires IsDigit(c)
    ensures d < 10
  {
    c as int - 48
  }

  /** The decimal text of n: digits only, no leading zero except for 0 itself. */
  function NatText(n: nat): (s: string)
    ensures |s| >= 1 && AllDigits(s)
    ensures n == 0 <==> s == "0"
    ensures n > 0 ==> s[0] != '0'
    decreases n
  {
    if n < 10 then [DigitChar(n)] else NatText(n / 10) + [DigitChar(n % 10)]
  }

  /** The number a string of digits denotes. */
  function DigitsValue(s: string): nat
    requires AllDigits(s)
  {
    if s == [] then 0 else DigitsValue(s[..|s| - 1]) * 10 + DigitValue(s[|s| - 1])
  }

  lemma {:induction false} NatTextValue(n: nat)
    ensures DigitsValue(NatText(n)) == n
    decreases n
  {
    if n >= 10 {
      NatTextValue(n / 10);
      var s := NatText(n);
      assert s[..|s| - 1] == NatText(n / 10);
    }
  }

  lemma {:induction false} DigitsValueAppend(a: string, b: string)
    requires AllDigits(a) && AllDigits(b)
    ensures AllDigits(a + b)
    ensures DigitsValue(a + b) == DigitsValue(a) * Pow10(|b|) + DigitsValue(b)
    decreases |b|
  {
    if b == [] {
      assert a + b == a;
    } else {
      var b' := b[..|b| - 1];
      DigitsValueAppend(a, b');
      var d := DigitValue(b[|b| - 1]);
      assert (a + b)[..|a + b| - 1] == a + b';
      assert (a + b)[|a + b| - 1] == b[|b| - 1];
      assert DigitsValue(a + b) == DigitsValue(a + b') * 10 + d;
      assert DigitsValue(b) == DigitsValue(b') * 10 + d;
      assert Pow10(|b|) == Pow10(|b'|) * 10;
      ShiftDigit(DigitsValue(a), Pow10(|b'|), DigitsValue(b'), d);
    }
  }

  /** Appending digit d to the text of a * p + v multiplies by ten and adds d. */
  lemma ShiftDigit(a: int, p: int, v: int, d: int)
    ensures (a * p + v) * 10 + d == a * (p * 10) + (v * 10 + d)
  {
  }

  /** k zero digits. */
  function Zeros(k: nat): (s: string)
    ensures |s| == k && AllDigits(s)
    ensures forall i :: 0 <= i < k ==> s[i] == '0'
  {
    if k == 0 then [] else Zeros(k - 1) + ['0']
  }

  lemma {:induction false} ZerosValue(k: nat)
    ensures DigitsValue(Zeros(k)) == 0
  {
    if k > 0 {
      ZerosValue(k - 1);
      assert Zeros(k)[..k - 1] == Zeros(k - 1);
    }
  }

  /** s, preceded by as many zeros as it takes to be at least `width` long. */
  function PadLeft(s: string, width: nat): (t: string)
    ensures |t| >= width && |t| >= |s|
  {
    if |s| >= width then s else Zeros(width - |s|) + s
  }

  /**
   * s without its trailing '0' characters: the result followed by the removed
   * zeros gives back s, and the result does not end with '0'.
   */
  function StripTrailingZeros(s: string): (t: string)
    ensures |t| <= |s| && s == t + Zeros(|s| - |t|)
    ensures t == [] || t[|t| - 1] != '0'
  {
    if s != [] && s[|s| - 1] == '0' then
      var t := StripTrailingZeros(s[..|s| - 1]);
      assert s == s[..|s| - 1] + ['0'];
      t
    else
      assert s == s + Zeros(0);
      s
  }

  // ---------------------------------------------------------------------
  // The formatter

  /** The digits of |r|, zero-padded so that at least one digit precedes the point. */
  function PaddedDigits(r: int, precision: nat): (s: string)
    ensures |s| >= precision + 1 && AllDigits(s)
  {
    PadLeft(NatText(Abs(r)), precision + 1)
  }

  /** The digits of s before the last `precision` ones. */
  function WholeDigits(s: string, precision: nat): string
    requires |s| >= precision
  {
    s[..|s| - precision]
  }

  /** The last `precision` digits of s, trailing zeros removed. */
  function FractionDigits(s: string, precision: nat): string
    requires |s| >= precision
  {
    StripTrailingZeros(s[|s| - precision..])
  }

  /** The integer part of the text of r * 10^-precision (without sign). */
  function WholePart(r: int, precision: nat): string
  {
    WholeDigits(PaddedDigits(r, precision), precision)
  }

  /** The fraction digits of the text of r * 10^-precision, trailing zeros removed. */
  function FractionPart(r: int, precision: nat): string
  {
    FractionDigits(PaddedDigits(r, precision), precision)
  }

  /** The text of the unsigned part: integer part, then a point and the fraction when there is one. */
  function UnsignedText(r: int, precision: nat): string
  {
    var fraction := FractionPart(r, precision);
    WholePart(r, precision) + (if fraction == "" then "" else "." + fraction)
  }

  /** The text of the number r * 10^-precision. */
  function ScaledText(r: int, precision: nat): string
  {
    (if r < 0 then "-" else "") + UnsignedText(r, precision)
  }

  /**
   * format_number: round x to `precision` decimal places, then drop trailing
   * zeros and a trailing decimal point. Never uses scientific notation.
   */
  function FormatNumber(x: real, precision: nat): string
  {
    ScaledText(Rounded(x, precision), precision)
  }

  // ---------------------------------------------------------------------
  // Reading decimal text back

  /** A decimal number mantissa * 10^-scale. */
  datatype Decimal = Decimal(mantissa: int, scale: nat)

  /** The index of the first c in s, or |s| when there is none. */
  function FirstIndex(s: string, c: char): (i: nat)
    ensures i <= |s|
    ensures i < |s| ==> s[i] == c
    ensures forall k :: 0 <= k < i ==> s[k] != c
  {
    if s == [] then 0
    else if s[0] == c then 0
    else 1 + FirstIndex(s[1..], c)
  }

  /** Reads `digits` or `digits.digits`. */
  function ParseUnsigned(s: string): Option<Decimal>
  {
    var i := FirstIndex(s, '.');
    var whole := s[..i];
    if whole == [] || !AllDigits(whole) then None
    else if i == |s| then Some(Decimal(DigitsValue(whole), 0))
    else
      var fraction := s[i + 1..];
      if fraction == [] || !AllDigits(fraction) then None
      else Some(Decimal(DigitsValue(whole + fraction), |fraction|))
  }

  /** Reads plain decimal text with an optional leading minus sign; None if malformed. */
  function ParseNumber(s: string): Option<Decimal>
  {
    if |s| > 0 && s[0] == '-' then
      match ParseUnsigned(s[1..])
      case None => None
      case Some(d) => Some(Decimal(-d.mantissa, d.scale))
    else
      ParseUnsigned(s)
  }

  // ---------------------------------------------------------------------
  // Properties of the formatter

  lemma {:induction false} StripAllZeros(s: string)
    requires forall i :: 0 <= i < |s| ==> s[i] == '0'
    ensures StripTrailingZeros(s) == []
  {
    if s != [] {
      assert s[|s| - 1] == '0';
      StripAllZeros(s[..|s| - 1]);
    }
  }

  lemma PaddedValue(r: int, precision: nat)
    ensures DigitsValue(PaddedDigits(r, precision)) == Abs(r)
  {
    NatTextValue(Abs(r));
    PadLeftValue(NatText(Abs(r)), precision + 1);
  }

  /** Leading zeros do not change the value of a digit string. */
  lemma PadLeftValue(t: string, width: nat)
    requires AllDigits(t)
    ensures DigitsValue(PadLeft(t, width)) == DigitsValue(t)
  {
    if |t| < width {
      var z := Zeros(width - |t|);
      assert PadLeft(t, width) == z + t;
      ZerosValue(width - |t|);
      DigitsValueAppend(z, t);
      ZeroProduct(DigitsValue(z), Pow10(|t|));
    }
  }

  /** Proof helper: a zero factor gives a zero product. */
  lemma ZeroProduct(a: int, b: int)
    requires a == 0
    ensures a * b == 0
  {
  }

  /** The padded digits split into the integer part and the full (unstripped) fraction. */
  lemma PaddedSplit(r: int, precision: nat)
    ensures var s := PaddedDigits(r, precision);
            var full := s[|s| - precision..];
            var f := FractionPart(r, precision);
            s == WholePart(r, precision) + full &&
            full == f + Zeros(precision - |f|) &&
            |WholePart(r, precision)| >= 1 && AllDigits(WholePart(r, precision)) && AllDigits(f)
  {
    DigitSplit(PaddedDigits(r, precision), precision);
  }

  /** A digit string longer than `precision` splits into its integer part and its full fraction. */
  lemma DigitSplit(s: string, precision: nat)
    requires |s| >= precision + 1 && AllDigits(s)
    ensures var full := s[|s| - precision..];
            var f := StripTrailingZeros(full);
            s == s[..|s| - precision] + full &&
            full == f + Zeros(precision - |f|) &&
            |s[..|s| - precision]| >= 1 && AllDigits(s[..|s| - precision]) && AllDigits(f)
  {
    var full := s[|s| - precision..];
    assert s == s[..|s| - precision] + full;
    var f := StripTrailingZeros(full);
    assert forall i :: 0 <= i < |f| ==> f[i] == full[i];
  }

  lemma ParseUnsignedText(r: int, precision: nat)
    ensures var d := ParseUnsigned(UnsignedText(r, precision));
            var f := FractionPart(r, precision);
            AllDigits(WholePart(r, precision) + f) &&
            d.Some? && d.value.scale == |f| &&
            d.value.mantissa == DigitsValue(WholePart(r, precision) + f)
  {
    PaddedSplit(r, precision);
    ParseGlued(WholePart(r, precision), FractionPart(r, precision));
  }

  /** Digits w, then a point and digits f when f is not empty, read back as the digits of w + f with |f| fraction digits. */
  lemma ParseGlued(w: string, f: string)
    requires |w| >= 1 && AllDigits(w) && AllDigits(f)
    ensures AllDigits(w + f)
    ensures var d := ParseUnsigned(w + (if f == "" then "" else "." + f));
            d.Some? && d.value.scale == |f| && d.value.mantissa == DigitsValue(w + f)
  {
    assert AllDigits(w + f);
    if f == "" {
      assert w + f == w;
      assert w + "" == w;
      ParseWhole(w);
    } else {
      ParsePointed(w, f);
    }
  }

  lemma ParseWhole(w: string)
    requires |w| >= 1 && AllDigits(w)
    ensures ParseUnsigned(w) == Some(Decimal(DigitsValue(w), 0))
  {
    assert FirstIndex(w, '.') == |w|;
    assert w[..|w|] == w;
  }

  lemma ParsePointed(w: string, f: string)
    requires |w| >= 1 && AllDigits(w) && AllDigits(f) && f != ""
    requires AllDigits(w + f)
    ensures ParseUnsigned(w + ("." + f)) == Some(Decimal(DigitsValue(w + f), |f|))
  {
    var u := w + ("." + f);
    assert forall k :: 0 <= k < |w| ==> u[k] == w[k];
    assert u[|w|] == '.';
    assert FirstIndex(u, '.') == |w|;
    assert u[..|w|] == w;
    assert u[|w| + 1..] == f;
  }

  lemma LastDigit(s: string)
    requires AllDigits(s) && s != []
    ensures DigitsValue(s) % 10 == DigitValue(s[|s| - 1])
  {
    var a := DigitsValue(s[..|s| - 1]);
    var d := DigitValue(s[|s| - 1]);
    assert DigitsValue(s) == a * 10 + d;
    assert (a * 10 + d) % 10 == d;
  }

  lemma ValueWithZeros(a: string, k: nat)
    requires AllDigits(a)
    ensures AllDigits(a + Zeros(k))
    ensures DigitsValue(a + Zeros(k)) == DigitsValue(a) * Pow10(k)
  {
    DigitsValueAppend(a, Zeros(k));
    ZerosValue(k);
  }

  lemma ValueOfPadded(s: string, a: string, k: nat, v: nat)
    requires AllDigits(a) && AllDigits(s)
    requires s == a + Zeros(k) && DigitsValue(s) == v
    ensures DigitsValue(a) * Pow10(k) == v
  {
    ValueWithZeros(a, k);
  }

  /** The digits of the integer and fraction parts, read as one number, are |r| / 10^(dropped zeros). */
  lemma MantissaMagnitude(r: int, precision: nat)
    ensures var w := WholePart(r, precision);
            var f := FractionPart(r, precision);
            |f| <= precision && AllDigits(w + f) &&
            DigitsValue(w + f) * Pow10(precision - |f|) == Abs(r) &&
            (f != [] ==> DigitsValue(w + f) % 10 != 0)
  {
    PaddedSplit(r, precision);
    PaddedValue(r, precision);
    var s := PaddedDigits(r, precision);
    var full := s[|s| - precision..];
    var f := FractionPart(r, precision);
    assert f == StripTrailingZeros(full);
    assert |full| == precision;
    MantissaGlue(s, WholePart(r, precision), full, f, Abs(r));
  }

  lemma MantissaGlue(s: string, w: string, full: string, f: string, v: nat)
    requires AllDigits(s) && AllDigits(w) && AllDigits(f) && DigitsValue(s) == v
    requires |f| <= |full| && s == w + full && full == f + Zeros(|full| - |f|)
    requires f == [] || f[|f| - 1] != '0'
    ensures AllDigits(w + f)
    ensures DigitsValue(w + f) * Pow10(|full| - |f|) == v
    ensures f != [] ==> DigitsValue(w + f) % 10 != 0
  {
    var wf := w + f;
    assert AllDigits(wf);
    assert wf + Zeros(|full| - |f|) == s;
    ValueOfPadded(s, wf, |full| - |f|, v);
    if f != [] {
      LastDigitNonZero(w, f);
    }
  }

  lemma LastDigitNonZero(w: string, f: string)
    requires AllDigits(w) && AllDigits(f) && f != [] && f[|f| - 1] != '0'
    ensures AllDigits(w + f) && DigitsValue(w + f) % 10 != 0
  {
    var wf := w + f;
    assert AllDigits(wf);
    LastDigit(wf);
    assert wf[|wf| - 1] == f[|f| - 1];
  }

  /**
   * Reading the text of r * 10^-precision back yields that value exactly: a
   * mantissa m with at most `precision` fraction digits and
   * m * 10^(precision - scale) == r. The fraction never ends in a zero digit.
   */
  lemma ScaledTextRoundTrip(r: int, precision: nat)
    ensures var d := ParseNumber(ScaledText(r, precision));
            d.Some? && d.value.scale <= precision &&
            d.value.mantissa * Pow10(precision - d.value.scale) == r &&
            (d.value.scale > 0 ==> d.value.mantissa % 10 != 0)
  {
    UnsignedRoundTrip(r, precision);
    var u := UnsignedText(r, precision);
    var d := ParseUnsigned(u).value;
    SignedParse(u, d, precision - d.scale, r);
  }

  /** The unsigned text reads back as |r| * 10^-precision, with at most `precision` fraction digits. */
  lemma UnsignedRoundTrip(r: int, precision: nat)
    ensures var u := UnsignedText(r, precision);
            var d := ParseUnsigned(u);
            u != [] && u[0] != '-' &&
            d.Some? && d.value.scale <= precision &&
            d.value.mantissa * Pow10(precision - d.value.scale) == Abs(r) &&
            (d.value.scale > 0 ==> d.value.mantissa % 10 != 0)
  {
    PaddedSplit(r, precision);
    ParseUnsignedText(r, precision);
    MantissaMagnitude(r, precision);
    var u := UnsignedText(r, precision);
    assert u[0] == WholePart(r, precision)[0];
  }

  lemma SignedParse(u: string, d: Decimal, k: nat, r: int)
    requires u != [] && u[0] != '-'
    requires ParseUnsigned(u) == Some(d)
    requires d.mantissa * Pow10(k) == Abs(r)
    requires d.scale > 0 ==> d.mantissa % 10 != 0
    ensures var e := ParseNumber((if r < 0 then "-" else "") + u);
            e.Some? && e.value.scale == d.scale && e.value.mantissa * Pow10(k) == r &&
            (d.scale > 0 ==> e.value.mantissa % 10 != 0)
  {
    if r < 0 {
      ParseNegative(u);
      NegatedMantissa(d.mantissa, Pow10(k), r);
    } else {
      assert "" + u == u;
      ParseNonNegative(u);
    }
  }

  lemma ParseNegative(u: string)
    ensures ParseNumber("-" + u) ==
      match ParseUnsigned(u)
      case None => None
      case Some(d) => Some(Decimal(-d.mantissa, d.scale))
  {
    assert ("-" + u)[1..] == u;
  }

  lemma ParseNonNegative(u: string)
    requires u != [] && u[0] != '-'
    ensures ParseNumber(u) == ParseUnsigned(u)
  {
  }

  lemma NegatedMantissa(m: int, p: int, r: int)
    requires r < 0 && m * p == -r
    ensures -m * p == r
    ensures m % 10 != 0 ==> (-m) % 10 != 0
  {
  }

  /**
   * The text is plain positional decimal: an optional '-' (only for a negative
   * value; the model writes no sign on a zero result), digits without a
   * leading zero unless the integer part is 0, and a point only when fraction
   * digits follow it; it never ends in '.' nor in a '0' after the point, and
   * with precision 0 it has no point at all.
   */
  lemma ScaledTextIsCanonical(r: int, precision: nat)
    ensures var s := ScaledText(r, precision);
            |s| >= 1 &&
            (forall c :: c in s ==> IsDigit(c) || c == '-' || c == '.') &&
            (s[0] == '-' <==> r < 0) &&
            s[|s| - 1] != '.' &&
            ('.' in s ==> s[|s| - 1] != '0') &&
            (precision == 0 ==> '.' !in s) &&
            (var u := if s[0] == '-' then s[1..] else s; |u| >= 1 && (u[0] == '0' ==> |u| == 1 || u[1] == '.'))
  {
    PaddedSplit(r, precision);
    WholeNoLeadingZero(r, precision);
    var f := FractionPart(r, precision);
    CanonicalGlue(r < 0, WholePart(r, precision), f);
    assert |f| <= precision;
  }

  /** The shape of sign + whole + optional "." + fraction, for digit strings with no trailing fraction zero. */
  lemma CanonicalGlue(negative: bool, w: string, f: string)
    requires |w| >= 1 && AllDigits(w) && AllDigits(f)
    requires w[0] == '0' ==> |w| == 1
    requires f == [] || f[|f| - 1] != '0'
    ensures var s := (if negative then "-" else "") + (w + (if f == "" then "" else "." + f));
            |s| >= 1 &&
            (forall c :: c in s ==> IsDigit(c) || c == '-' || c == '.') &&
            (s[0] == '-' <==> negative) &&
            s[|s| - 1] != '.' &&
            ('.' in s ==> s[|s| - 1] != '0') &&
            (f == [] ==> '.' !in s) &&
            (var u := if s[0] == '-' then s[1..] else s; |u| >= 1 && (u[0] == '0' ==> |u| == 1 || u[1] == '.'))
  {
    var sign := if negative then "-" else "";
    var tail := if f == "" then "" else "." + f;
    var s := sign + (w + tail);
    forall c | c in s ensures IsDigit(c) || c == '-' || (c == '.' && f != "") {
      var i :| 0 <= i < |s| && s[i] == c;
      if i < |sign| {
      } else if i < |sign| + |w| {
        assert c == w[i - |sign|];
      } else {
        assert c == tail[i - |sign| - |w|];
      }
    }
    if sign == "" { assert s[0] == w[0]; }
    if f == "" {
      assert s[|s| - 1] == w[|w| - 1];
    } else {
      assert s[|s| - 1] == f[|f| - 1];
    }
    var u := w + tail;
    assert (if s[0] == '-' then s[1..] else s) == u;
    if |u| > 1 && u[0] == '0' {
      assert u[1] == tail[0];
    }
  }

  /** The integer part has no leading zero unless it is the single digit 0. */
  lemma WholeNoLeadingZero(r: int, precision: nat)
    ensures var w := WholePart(r, precision);
            |w| >= 1 && (w[0] == '0' ==> |w| == 1)
  {
    var t := NatText(Abs(r));
    var s := PaddedDigits(r, precision);
    var w := WholePart(r, precision);
    if |t| >= precision + 1 {
      assert s == t;
      assert w[0] == t[0];
    } else {
      assert |s| == precision + 1;
    }
  }

  // ---------------------------------------------------------------------
  // format_number

  /**
   * The text of FormatNumber(x, precision) reads back as a decimal with at
   * most `precision` fraction digits, none of them a trailing zero, whose
   * value lies within half a unit of the last place from x.
   */
  lemma FormatRoundTrip(x: real, precision: nat)
    ensures var d := ParseNumber(FormatNumber(x, precision));
            d.Some? && d.value.scale <= precision &&
            (d.value.scale > 0 ==> d.value.mantissa % 10 != 0) &&
            var units := d.value.mantissa * Pow10(precision - d.value.scale);
            units == Rounded(x, precision) &&
            -1.0 <= 2.0 * (units as real - x * Pow10(precision) as real) <= 1.0
  {
    var r := Rounded(x, precision);
    ScaledTextRoundTrip(r, precision);
    RoundedIsNearest(x, precision);
    assert FormatNumber(x, precision) == ScaledText(r, precision);
  }

  /**
   * The text of FormatNumber is plain decimal: no leading zero in the
   * integer part other than a lone 0, no trailing '0' after a point and no
   * trailing point. The model writes no sign on a zero result.
   */
  lemma FormatIsCanonical(x: real, precision: nat)
    ensures var s := FormatNumber(x, precision);
            |s| >= 1 &&
            (forall c :: c in s ==> IsDigit(c) || c == '-' || c == '.') &&
            (s[0] == '-' <==> Rounded(x, precision) < 0) &&
            s[|s| - 1] != '.' &&
            ('.' in s ==> s[|s| - 1] != '0') &&
            (precision == 0 ==> '.' !in s) &&
            (var u := if s[0] == '-' then s[1..] else s; |u| >= 1 && (u[0] == '0' ==> |u| == 1 || u[1] == '.'))
  {
    ScaledTextIsCanonical(Rounded(x, precision), precision);
  }

  lemma NatTextTimesTen(n: nat)
    requires n >= 1
    ensures NatText(n * 10) == NatText(n) + ['0']
  {
    assert (n * 10) / 10 == n && (n * 10) % 10 == 0;
  }

  lemma Pow10Step(m: nat, k: nat)
    requires k > 0
    ensures m * Pow10(k) == (m * Pow10(k - 1)) * 10
    ensures m > 0 ==> m * Pow10(k - 1) >= 1
  {
  }

  lemma {:induction false} NatTextTimesPow10(m: nat, k: nat)
    requires m > 0
    ensures NatText(m * Pow10(k)) == NatText(m) + Zeros(k)
  {
    if k > 0 {
      NatTextTimesPow10(m, k - 1);
      Pow10Step(m, k);
      var n := m * Pow10(k - 1);
      NatTextTimesTen(n);
      assert NatText(m * Pow10(k)) == NatText(n) + ['0'];
    } else {
      assert m * Pow10(k) == m;
    }
  }

  /** Rounding leaves a whole number of units unchanged. */
  lemma RoundedWhole(n: int, precision: nat)
    ensures Rounded(n as real, precision) == n * Pow10(precision)
  {
    ShiftedIsScaled(n as real, precision);
    RealProduct(n, Pow10(precision));
    RoundWhole(n * Pow10(precision));
  }

  /** Proof helper: the conversion to real commutes with multiplication. */
  lemma RealProduct(a: int, b: int)
    ensures (a as real) * (b as real) == (a * b) as real
  {
  }

  lemma RoundWhole(k: int)
    ensures RoundHalfEven(k as real) == k
  {
    assert (k as real).Floor == k;
  }

  lemma ScaledTextZero(precision: nat)
    ensures ScaledText(0, precision) == "0"
  {
    PaddedZero(precision);
    ZerosParts(precision);
  }

  lemma PaddedZero(precision: nat)
    ensures PaddedDigits(0, precision) == Zeros(precision + 1)
  {
    assert NatText(0) == "0";
    if precision > 0 {
      assert Zeros(precision) + "0" == Zeros(precision + 1);
    }
  }

  lemma ZerosParts(precision: nat)
    ensures WholeDigits(Zeros(precision + 1), precision) == "0"
    ensures FractionDigits(Zeros(precision + 1), precision) == []
  {
    var s := Zeros(precision + 1);
    assert s[..1] == "0";
    StripAllZeros(s[1..]);
  }

  lemma ScaledTextShifted(r: int, precision: nat, t: string)
    requires |t| >= 1 && NatText(Abs(r)) == t + Zeros(precision)
    ensures ScaledText(r, precision) == (if r < 0 then "-" else "") + t
  {
    assert PaddedDigits(r, precision) == t + Zeros(precision);
    ZeroTail(t, precision);
  }

  /** Digits followed by `precision` zeros: the integer part is the digits and the fraction is empty. */
  lemma ZeroTail(t: string, precision: nat)
    ensures WholeDigits(t + Zeros(precision), precision) == t
    ensures FractionDigits(t + Zeros(precision), precision) == []
  {
    var s := t + Zeros(precision);
    assert s[..|s| - precision] == t;
    assert s[|s| - precision..] == Zeros(precision);
    StripAllZeros(Zeros(precision));
  }

  lemma AbsTimesPow10(n: int, precision: nat)
    ensures Abs(n * Pow10(precision)) == Abs(n) * Pow10(precision)
    ensures n * Pow10(precision) < 0 <==> n < 0
  {
  }

  lemma ScaledTextOfWhole(n: int, precision: nat)
    requires n != 0
    ensures ScaledText(n * Pow10(precision), precision) == (if n < 0 then "-" else "") + NatText(Abs(n))
  {
    AbsTimesPow10(n, precision);
    NatTextTimesPow10(Abs(n), precision);
    ScaledTextShifted(n * Pow10(precision), precision, NatText(Abs(n)));
  }

  /** A whole number prints as a bare integer at every precision. */
  lemma FormatWhole(n: int, precision: nat)
    ensures FormatNumber(n as real, precision) == (if n < 0 then "-" else "") + NatText(Abs(n))
  {
    RoundedWhole(n, precision);
    if n == 0 {
      ScaledTextZero(precision);
    } else {
      ScaledTextOfWhole(n, precision);
    }
  }

  lemma {:induction false} StripAppendedZeros(a: string, j: nat)
    ensures StripTrailingZeros(a + Zeros(j)) == StripTrailingZeros(a)
  {
    if j > 0 {
      StripAppendedZeros(a, j - 1);
      StripOneZero(a, j);
    } else {
      assert a + Zeros(j) == a;
    }
  }

  lemma StripOneZero(a: string, j: nat)
    requires j > 0
    ensures StripTrailingZeros(a + Zeros(j)) == StripTrailingZeros(a + Zeros(j - 1))
  {
    var b := a + Zeros(j);
    assert b[|b| - 1] == '0';
    assert b[..|b| - 1] == a + Zeros(j - 1);
  }

  lemma PaddedShift(r: int, precision: nat, j: nat)
    requires r != 0
    ensures PaddedDigits(r * Pow10(j), precision + j) == PaddedDigits(r, precision) + Zeros(j)
  {
    AbsTimesPow10(r, j);
    NatTextTimesPow10(Abs(r), j);
    var t := NatText(Abs(r));
    if |t| < precision + 1 {
      assert Zeros(precision + 1 - |t|) + t + Zeros(j) == Zeros(precision + 1 - |t|) + (t + Zeros(j));
    }
  }

  lemma SplitShift(s: string, precision: nat, j: nat)
    requires |s| >= precision
    ensures WholeDigits(s + Zeros(j), precision + j) == WholeDigits(s, precision)
    ensures FractionDigits(s + Zeros(j), precision + j) == FractionDigits(s, precision)
  {
    WholeShift(s, precision, j);
    FractionShift(s, precision, j);
  }

  lemma WholeShift(s: string, precision: nat, j: nat)
    requires |s| >= precision
    ensures WholeDigits(s + Zeros(j), precision + j) == WholeDigits(s, precision)
  {
    SliceAppend(s, Zeros(j), precision, precision + j);
  }

  lemma FractionShift(s: string, precision: nat, j: nat)
    requires |s| >= precision
    ensures FractionDigits(s + Zeros(j), precision + j) == FractionDigits(s, precision)
  {
    var z := Zeros(j);
    var a := s[|s| - precision..];
    SliceAppend(s, z, precision, precision + j);
    StripAppendedZeros(a, j);
    assert FractionDigits(s + z, precision + j) == StripTrailingZeros(a + z);
  }

  /** Appending z to s moves the cut `p` places before the end of s to p + |z| places before the new end. */
  lemma SliceAppend<T>(s: seq<T>, z: seq<T>, p: nat, q: nat)
    requires p <= |s| && q == p + |z|
    ensures (s + z)[..|s + z| - q] == s[..|s| - p]
    ensures (s + z)[|s + z| - q..] == s[|s| - p..] + z
  {
  }

  /**
   * Asking for more decimal places than a value has changes nothing: the
   * extra places are zeros, and they are stripped.
   */
  lemma ScaledTextExtraPrecision(r: int, precision: nat, j: nat)
    ensures ScaledText(r * Pow10(j), precision + j) == ScaledText(r, precision)
  {
    if r == 0 {
      ExtraPrecisionZero(precision, j);
    } else {
      PaddedShift(r, precision, j);
      AbsTimesPow10(r, j);
      ShiftedText(r, r * Pow10(j), precision, j);
    }
  }

  lemma ExtraPrecisionZero(precision: nat, j: nat)
    ensures ScaledText(0 * Pow10(j), precision + j) == ScaledText(0, precision)
  {
    ScaledTextZero(precision);
    ScaledTextZero(precision + j);
  }

  /** A value of the same sign whose digits are those of r followed by j zeros has the same text at j more places. */
  lemma ShiftedText(r: int, r': int, precision: nat, j: nat)
    requires r' < 0 <==> r < 0
    requires PaddedDigits(r', precision + j) == PaddedDigits(r, precision) + Zeros(j)
    ensures ScaledText(r', precision + j) == ScaledText(r, precision)
  {
    SplitShift(PaddedDigits(r, precision), precision, j);
  }
}
