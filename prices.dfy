/**
 * `Price`: a decimal amount in a currency. Prices are ordered by currency, then by amount;
 * two prices are equal when their currencies are and their amounts are numerically equal,
 * whatever the scales.
 */
module Prices {
  import opened JavaText
  import opened BigDecimals

  datatype Price = Price(value: Decimal, currency: string)

  /** -1, 0 or 1: the sign of a `compareTo` result. */
  function Signum(x: int): int {
    if x < 0 then -1 else if x == 0 then 0 else 1
  }

  /** `compareTo`: the currencies' `String.compareTo` unless it is zero, then the amounts'. */
  function CompareTo(a: Price, b: Price): (r: int)
    ensures a.currency != b.currency ==> r == CompareStrings(a.currency, b.currency) && r != 0
    ensures a.currency == b.currency ==> Signum(r) == Signum(CompareNumbers(a.value, b.value))
  {
    var result := CompareStrings(a.currency, b.currency);
    if result != 0 then result else BigDecimals.CompareTo(a.value, b.value)
  }

  /** The numeric order of two amounts, as a sign. */
  function CompareNumbers(x: Decimal, y: Decimal): int {
    if NumericValue(x) < NumericValue(y) then -1 else if NumericValue(x) == NumericValue(y) then 0 else 1
  }

  /** `equals`: numerically equal amounts (`compareTo`, not `BigDecimal.equals`) and equal currencies. */
  predicate Equals(a: Price, b: Price): (r: bool)
    ensures r <==> NumericValue(a.value) == NumericValue(b.value) && a.currency == b.currency
  {
    BigDecimals.CompareTo(a.value, b.value) == 0 && a.currency == b.currency
  }

  /** `equals` agrees with `compareTo`, as `Comparable` recommends. */
  lemma EqualsIffCompareZero(a: Price, b: Price)
    ensures Equals(a, b) <==> CompareTo(a, b) == 0
  {
  }

  /** 2.5 EUR equals 2.50 EUR: the scale of the amount does not matter. */
  lemma {:induction false} EqualsIgnoresScale(p: Price, extra: nat)
    ensures Equals(p, Price(Decimal(p.value.unscaled * Pow10(extra), p.value.scale + extra), p.currency))
  {
    CompareToIgnoresScale(p.value, extra);
  }

  /** `compareTo` is antisymmetric in sign. */
  lemma {:induction false} CompareToAntisymmetric(a: Price, b: Price)
    ensures Signum(CompareTo(a, b)) == -Signum(CompareTo(b, a))
  {
    CompareStringsAntisymmetric(a.currency, b.currency);
  }

  /** `compareTo` is transitive. */
  lemma {:induction false} CompareToTransitive(a: Price, b: Price, c: Price)
    requires CompareTo(a, b) < 0 && CompareTo(b, c) < 0
    ensures CompareTo(a, c) < 0
  {
    if a.currency != b.currency && b.currency != c.currency {
      CompareStringsTransitive(a.currency, b.currency, c.currency);
    }
  }

  /** `toString`: the amount as `BigDecimal.toString` writes it, a space, then the currency. */
  function ToString(p: Price): (r: string)
    ensures |r| > |BigDecimals.ToString(p.value)| && r[..|BigDecimals.ToString(p.value)|] == BigDecimals.ToString(p.value)
    ensures |r| > |p.currency| && r[|r| - |p.currency| - 1..] == " " + p.currency
  {
    BigDecimals.ToString(p.value) + " " + p.currency
  }

  /** A negative amount with two decimals and its currency, as the tests print it. */
  lemma ToStringExample()
    ensures ToString(Price(Decimal(-2057, 2), "DEF")) == "-20.57 DEF"
  {
    assert NatToString(2057) == "2057";
  }
}
