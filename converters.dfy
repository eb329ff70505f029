/**
 * `Converter` and `AbstractStringConverter`: every converter of the core reads a string, trims
 * it, turns null and blank text into null and hands anything else to its own `doConvert`.
 * `castAndConvert` first casts an arbitrary value to the source type.
 */
module Converters {
  import opened Wrappers
  import opened JavaText
  import opened BigDecimals
  import opened Exceptions
  import opened Types
  import DecimalConvertor
  import CurrencyConverter

  /**
   * The converters the core knows. `StringText` is `StringConverter.INSTANCE`, whose
   * `doConvert` keeps the text as it is. A temporal converter parses with a `java.time`
   * formatter; the formatter is abstracted as the table of the texts it accepts and the value
   * it makes of each, together with the pattern quoted in its error message.
   */
  datatype Converter =
    | StringText
    | CurrencyCode
    | DecimalNumber(format: DecimalConvertor.DecimalFormat)
    | Temporal(target: TypeTag, pattern: string, parse: map<string, Value>)

  /** A temporal converter yields non-null values of its target type, as `parse` promises. */
  predicate Valid(c: Converter) {
    c.Temporal? ==> forall s :: s in c.parse ==> IsInstance(c.target, c.parse[s])
  }

  /** `getSourceType`: final in `AbstractStringConverter`, so String for every converter. */
  function SourceType(c: Converter): TypeTag {
    StringType
  }

  /** `getTargetType`. */
  function TargetType(c: Converter): TypeTag {
    match c
    case StringText => StringType
    case CurrencyCode => StringType
    case DecimalNumber(_) => BigDecimalType
    case Temporal(target, _, _) => target
  }

  /**
   * `doConvert` of each converter, on text that is already trimmed and not empty. It never
   * yields null. It fails with a `ConversionException`, except that the decimal converter
   * lets the `BigDecimal` constructor's `NumberFormatException` through.
   */
  function DoConvert(c: Converter, source: string): (r: Result<Value, Exception>)
    requires Valid(c)
    ensures r.Ok? ==> IsInstance(TargetType(c), r.value)
    ensures r.Err? ==> r.error.ConversionException? || (c.DecimalNumber? && r.error == NumberFormatException)
    ensures r.Err? && r.error.ConversionException? ==> r.error.source == source
  {
    match c
    case StringText => Ok(Str(source))
    case CurrencyCode =>
      var code :- CurrencyConverter.DoConvert(source);
      Ok(Str(code))
    case DecimalNumber(format) =>
      DecimalErrors(format, source);
      var d :- DecimalConvertor.Convert(format, source);
      Ok(Dec(d))
    case Temporal(_, pattern, parse) =>
      if source in parse then Ok(parse[source])
      else Err(ConversionException(UnparsableTemporal(pattern), source))
  }

  /** The decimal conversion fails only with a `ConversionException` about the text or a `NumberFormatException`. */
  lemma DecimalErrors(f: DecimalConvertor.DecimalFormat, s: string)
    ensures var r := DecimalConvertor.Convert(f, s);
      r.Err? ==> (r.error.ConversionException? && r.error.source == s) || r.error == NumberFormatException
  {
  }

  /**
   * `convert`: null stays null; the text is trimmed, and text that trimming empties becomes
   * null without `doConvert` being called; otherwise `doConvert` runs once on the trimmed text
   * and its result or its exception is the result.
   */
  function Convert(c: Converter, source: Option<string>): (r: Result<Value, Exception>)
    requires Valid(c)
    ensures r == Ok(Null) <==> source.None? || Trim(source.value) == []
    ensures source.Some? && Trim(source.value) != [] ==> r == DoConvert(c, Trim(source.value))
    ensures r.Ok? && r.value != Null ==> IsInstance(TargetType(c), r.value)
  {
    match source
    case None => Ok(Null)
    case Some(s) =>
      var t := Trim(s);
      if t == [] then Ok(Null) else DoConvert(c, t)
  }

  /** Text and its trimmed form convert alike: surrounding blanks never reach `doConvert`. */
  lemma {:induction false} ConvertIgnoresSurroundingBlanks(c: Converter, s: string)
    requires Valid(c)
    ensures Convert(c, Some(s)) == Convert(c, Some(Trim(s)))
  {
    TrimIdempotent(s);
  }

  /**
   * `castAndConvert`: the value is cast to String first. A non-String value fails with a
   * `ClassCastException` before `convert` runs; null and strings reach `convert` unchanged.
   */
  function CastAndConvert(c: Converter, v: Value): (r: Result<Value, Exception>)
    requires Valid(c)
    ensures v == Null ==> r == Convert(c, None)
    ensures v.Str? ==> r == Convert(c, Some(v.s))
    ensures v != Null && !v.Str? ==> r == Err(ClassCastException)
  {
    var x :- Cast(SourceType(c), v);
    Convert(c, if x.Str? then Some(x.s) else None)
  }
}
