/** `StringToCurrencyConverter`: a currency code is exactly three upper-case ASCII letters. */
module CurrencyConverter {
  import opened Wrappers
  import opened Exceptions

  predicate IsUpperAscii(c: char) {
    'A' <= c <= 'Z'
  }

  /** The text matches the pattern `[A-Z]{3}` as a whole. */
  predicate IsCurrencyCode(s: string) {
    |s| == 3 && IsUpperAscii(s[0]) && IsUpperAscii(s[1]) && IsUpperAscii(s[2])
  }

  /**
   * `doConvert`: a matching code is returned as it is, anything else is a
   * `ConversionException` naming the text.
   */
  function DoConvert(source: string): (r: Result<string, Exception>)
    ensures r.Ok? ==> r.value == source && |r.value| == 3
    ensures r.Ok? ==> forall k :: 0 <= k < |r.value| ==> IsUpperAscii(r.value[k])
    ensures r.Err? ==> r.error == ConversionException(InvalidCurrency, source)
    ensures r.Ok? <==> |source| == 3 && forall k :: 0 <= k < 3 ==> IsUpperAscii(source[k])
  {
    if IsCurrencyCode(source) then Ok(source) else Err(ConversionException(InvalidCurrency, source))
  }

  /** A lower-case letter anywhere makes the code invalid. */
  lemma RejectsLowerCase(source: string, k: nat)
    requires k < |source| && 'a' <= source[k] <= 'z'
    ensures DoConvert(source) == Err(ConversionException(InvalidCurrency, source))
  {
  }

  /** A code of any length but three is invalid. */
  lemma RejectsLength(source: string)
    requires |source| != 3
    ensures DoConvert(source) == Err(ConversionException(InvalidCurrency, source))
  {
  }
}
