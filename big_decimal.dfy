/**
 * The part of `java.math.BigDecimal` that the core uses: the value type itself, the
 * constructor from a character buffer, `compareTo` and `toString`.
 */
module BigDecimals {
  import opened Wrappers
  import opened JavaText

  /**
   * `unscaled * 10^-scale`. Equality of two `Decimal`s is `BigDecimal.equals`, which
   * distinguishes 2.0 from 2.00. Only non-negative scales arise from the parsing modelled here.
   */
  datatype Decimal = Decimal(unscaled: int, scale: nat)

  function Pow10(n: nat): (r: nat)
    ensures r >= 1
  {
    if n == 0 then 1 else 10 * Pow10(n - 1)
  }

  /** The number a `Decimal` stands for. */
  function NumericValue(d: Decimal): real {
    d.unscaled as real / Pow10(d.scale) as real
  }

  /**
   * `BigDecimal.compareTo`: -1, 0 or 1 as `a` is numerically less than, equal to or
   * greater than `b`, whatever the scales.
   */
  function CompareTo(a: Decimal, b: Decimal): (r: int)
    ensures r == -1 <==> NumericValue(a) < NumericValue(b)
    ensures r == 0 <==> NumericValue(a) == NumericValue(b)
    ensures r == 1 <==> NumericValue(a) > NumericValue(b)
  {
    var x := a.unscaled * Pow10(b.scale);
    var y := b.unscaled * Pow10(a.scale);
    CrossMultiplication(a.unscaled, Pow10(a.scale), b.unscaled, Pow10(b.scale));
    if x < y then -1 else if x == y then 0 else 1
  }

  /** Comparing fractions with positive denominators by cross-multiplying. */
  lemma CrossMultiplication(u: int, p: nat, v: int, q: nat)
    requires p >= 1 && q >= 1
    ensures u * q < v * p <==> u as real / p as real < v as real / q as real
    ensures u * q == v * p <==> u as real / p as real == v as real / q as real
  {
    var x := u as real / p as real;
    var y := v as real / q as real;
    assert u as real == x * p as real;
    assert v as real == y * q as real;
    assert (u * q) as real == x * (p * q) as real;
    assert (v * p) as real == y * (p * q) as real;
  }

  /** The scale of a number does not change its value: 2.5 and 2.50 compare as equal. */
  lemma {:induction false} CompareToIgnoresScale(d: Decimal, extra: nat)
    ensures CompareTo(d, Decimal(d.unscaled * Pow10(extra), d.scale + extra)) == 0
  {
    PowAdd(d.scale, extra);
    assert d.unscaled * Pow10(d.scale + extra) == d.unscaled * Pow10(extra) * Pow10(d.scale);
  }

  lemma {:induction false} PowAdd(m: nat, n: nat)
    ensures Pow10(m + n) == Pow10(m) * Pow10(n)
  {
    if n > 0 {
      PowAdd(m, n - 1);
    }
  }

  /**
   * The constructor `new BigDecimal(char[], 0, len)` on text made of an optional leading sign,
   * digits and decimal points (the only characters the decimal converter lets through): a minus
   * sign negates what the rest of the text stands for, a plus sign is dropped.
   */
  function Parse(t: string): (r: Option<Decimal>)
    ensures r.Some? ==> exists k :: 0 <= k < |t| && IsDigit(t[k])
    ensures r.Some? && r.value.unscaled < 0 ==> t[0] == '-'
    ensures r.Some? ==> r.value.scale < |t|
    ensures r.Some? && IndexOf(t, '.') == |t| ==> r.value.scale == 0
  {
    if |t| > 0 && (t[0] == '+' || t[0] == '-') then
      match ParseUnsigned(t[1..])
      case None => None
      case Some(d) =>
        assert exists k :: 0 <= k < |t| - 1 && IsDigit(t[1..][k]);
        Some(if t[0] == '-' then Decimal(-d.unscaled, d.scale) else d)
    else
      ParseUnsigned(t)
  }

  /**
   * Digits with at most one point among them and at least one digit, else
   * `NumberFormatException` (here `None`). The unscaled value is all digits read as one number;
   * the scale counts the digits after the point.
   */
  function ParseUnsigned(body: string): (r: Option<Decimal>)
    ensures r.Some? ==> r.value.unscaled >= 0 && exists k :: 0 <= k < |body| && IsDigit(body[k])
    ensures r.Some? ==> r.value.scale < |body|
    ensures r.Some? && IndexOf(body, '.') == |body| ==> r.value.scale == 0
  {
    var point := IndexOf(body, '.');
    var intPart := body[..point];
    var fraction := if point < |body| then body[point + 1..] else [];
    if AllDigits(intPart) && AllDigits(fraction) && |intPart| + |fraction| >= 1 then
      assert |intPart| >= 1 ==> body[0] == intPart[0];
      assert |intPart| == 0 ==> body[point + 1] == fraction[0];
      Some(Decimal(DigitsValue(intPart + fraction), |fraction|))
    else
      None
  }

  /**
   * The text the decimal converter hands over for a well-formed number: an optional sign, the
   * integer digits and, after a point, the fraction digits. It parses to all digits read as one
   * number, negated for a minus sign, with one decimal place per fraction digit.
   */
  lemma {:induction false} ParseNumber(sign: string, intPart: string, withPoint: bool, fraction: string)
    requires sign == "" || sign == "+" || sign == "-"
    requires AllDigits(intPart) && AllDigits(fraction) && |intPart| + |fraction| >= 1
    requires !withPoint ==> fraction == ""
    ensures AllDigits(intPart + fraction)
    ensures var magnitude: int := DigitsValue(intPart + fraction);
      Parse(sign + (intPart + if withPoint then "." + fraction else ""))
      == Some(Decimal(if sign == "-" then -magnitude else magnitude, |fraction|))
  {
    var body := intPart + if withPoint then "." + fraction else "";
    ParseUnsignedNumber(intPart, withPoint, fraction);
    assert body[0] == '.' || IsDigit(body[0]) by {
      if |intPart| > 0 {
        assert body[0] == intPart[0];
      }
    }
    ParseSigned(sign, body);
  }

  /** A sign in front of text that does not start with one. */
  lemma ParseSigned(sign: string, body: string)
    requires sign == "" || sign == "+" || sign == "-"
    requires |body| > 0 && body[0] != '+' && body[0] != '-'
    ensures Parse(sign + body) == match ParseUnsigned(body)
      case None => None
      case Some(d) => Some(if sign == "-" then Decimal(-d.unscaled, d.scale) else d)
  {
    var t := sign + body;
    if sign == "" {
      assert t == body;
    } else {
      assert t[0] == sign[0] && t[1..] == body;
    }
  }

  /** `ParseNumber` without the sign. */
  lemma {:induction false} ParseUnsignedNumber(intPart: string, withPoint: bool, fraction: string)
    requires AllDigits(intPart) && AllDigits(fraction) && |intPart| + |fraction| >= 1
    requires !withPoint ==> fraction == ""
    ensures AllDigits(intPart + fraction)
    ensures ParseUnsigned(intPart + (if withPoint then "." + fraction else ""))
            == Some(Decimal(DigitsValue(intPart + fraction), |fraction|))
  {
    var body := intPart + (if withPoint then "." + fraction else "");
    assert AllDigits(intPart + fraction) by {
      forall k | 0 <= k < |intPart + fraction| ensures IsDigit((intPart + fraction)[k]) {
        if k >= |intPart| {
          assert (intPart + fraction)[k] == fraction[k - |intPart|];
        }
      }
    }
    var point := IndexOf(body, '.');
    assert forall k :: 0 <= k < |intPart| ==> body[k] == intPart[k];
    if withPoint {
      assert body[|intPart|] == '.';
    }
    assert point == |intPart|;
    assert body[..point] == intPart;
    assert (if point < |body| then body[point + 1..] else []) == fraction by {
      if withPoint {
        assert body[point + 1..] == fraction;
      }
    }
  }

  /** Leading zeros of the fraction part written out by `toString` in plain notation. */
  function Zeros(n: nat): (r: string)
    ensures |r| == n && forall k :: 0 <= k < n ==> r[k] == '0'
  {
    if n == 0 then "" else "0" + Zeros(n - 1)
  }

  /** The digits of the magnitude of the unscaled value, as `BigDecimal.toString` starts from. */
  function Coefficient(d: Decimal): string {
    NatToString(if d.unscaled < 0 then -d.unscaled else d.unscaled)
  }

  /** The sign `toPlainString` writes: a minus for negative numbers only. */
  function SignText(d: Decimal): string {
    if d.unscaled < 0 then "-" else ""
  }

  /** The digits `toPlainString` writes before the point: `0` when the coefficient has no more digits than the scale. */
  function IntegerDigits(d: Decimal): string {
    var coeff := Coefficient(d);
    if d.scale == 0 then coeff else if d.scale >= |coeff| then "0" else coeff[..|coeff| - d.scale]
  }

  /** The digits `toPlainString` writes after the point: the last `scale` digits, padded with zeros in front. */
  function FractionDigits(d: Decimal): string {
    var coeff := Coefficient(d);
    if d.scale == 0 then "" else if d.scale >= |coeff| then Zeros(d.scale - |coeff|) + coeff else coeff[|coeff| - d.scale..]
  }

  /**
   * `BigDecimal.toPlainString`: a minus sign for negative numbers, the coefficient's digits with
   * a point before the last `scale` of them, and `0.` and zeros in front when there are no more
   * digits than the scale.
   */
  function PlainString(d: Decimal): string {
    SignText(d) + IntegerDigits(d) + (if d.scale > 0 then "." + FractionDigits(d) else "")
  }

  /**
   * The digits of the plain notation: at least one before the point, exactly `scale` after it,
   * together standing for the magnitude of the unscaled value.
   */
  lemma PlainDigits(d: Decimal)
    ensures AllDigits(IntegerDigits(d)) && |IntegerDigits(d)| >= 1
    ensures AllDigits(FractionDigits(d)) && |FractionDigits(d)| == d.scale
    ensures AllDigits(IntegerDigits(d) + FractionDigits(d))
    ensures DigitsValue(IntegerDigits(d) + FractionDigits(d)) == if d.unscaled < 0 then -d.unscaled else d.unscaled
  {
    var coeff := Coefficient(d);
    var i, f := IntegerDigits(d), FractionDigits(d);
    if d.scale == 0 {
      assert i + f == coeff;
    } else if d.scale >= |coeff| {
      LeadingZerosValue(d.scale - |coeff|, coeff);
      LeadingZerosValue(1, f);
      assert i + f == Zeros(1) + f;
    } else {
      assert i + f == coeff;
    }
  }

  /** `BigDecimal.toString` uses plain notation when the scale is zero or the adjusted exponent is at least -6. */
  predicate WrittenPlain(d: Decimal) {
    d.scale == 0 || (|Coefficient(d)| - 1) - d.scale >= -6
  }

  /**
   * `BigDecimal.toString`: plain notation when the scale is zero or the adjusted exponent is at
   * least -6, otherwise scientific notation `d.dddE-n`.
   */
  function ToString(d: Decimal): (r: string)
    ensures !WrittenPlain(d) ==> 'E' in r
  {
    var coeff := Coefficient(d);
    var sign := SignText(d);
    var adjusted := (|coeff| - 1) - d.scale;
    if WrittenPlain(d) then PlainString(d)
    else
      var mantissa := sign + coeff[..1] + (if |coeff| > 1 then "." + coeff[1..] else "");
      assert (mantissa + "E" + IntToString(adjusted))[|mantissa|] == 'E';
      mantissa + "E" + IntToString(adjusted)
  }

  /** Zeros in front of digits do not change their value. */
  lemma {:induction false} LeadingZerosValue(n: nat, s: string)
    requires AllDigits(s)
    ensures AllDigits(Zeros(n) + s)
    ensures DigitsValue(Zeros(n) + s) == DigitsValue(s)
  {
    var t := Zeros(n) + s;
    assert AllDigits(t) by {
      forall k | 0 <= k < |t| ensures IsDigit(t[k]) {
        if k >= n {
          assert t[k] == s[k - n];
        }
      }
    }
    if |s| > 0 {
      assert t[..|t| - 1] == Zeros(n) + s[..|s| - 1];
      LeadingZerosValue(n, s[..|s| - 1]);
    } else if n > 0 {
      assert t == Zeros(n);
      assert t[..|t| - 1] == Zeros(n - 1) + "";
      LeadingZerosValue(n - 1, "");
    }
  }

  /** 10^-7 has adjusted exponent -7 and is written in scientific notation. */
  lemma ToStringScientific()
    ensures !WrittenPlain(Decimal(1, 7))
    ensures ToString(Decimal(1, 7)) == "1E-7"
  {
    assert Coefficient(Decimal(1, 7)) == "1";
    assert IntToString(-7) == "-7";
  }
}
