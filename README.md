# stockmountain CSV extraction, modelled in Dafny

This project models the CSV extraction engine of stockmountain together with the field, schema,
record and converter layer it calls, and proves properties of the model.

- **CSV extractor** (`CsvExtractor`, its inner `CsvSpliterator`):
  - The constructor's checks and its ordinal-to-field table.
  - The character-at-a-time `readRow` state machine. It covers enclosed and bare fields, `""`
    escapes, CR/LF/CRLF line ends inside and outside enclosures, and blank lines ending the data.
  - Header rows, the record character limit, the field count check, the conversion of each
    field, and the record, line, field and position counters of every error.
  - Files: `csv_model.dfy`, `csv_extractor.dfy`, `csv_properties.dfy`, `csv_round_trip.dfy` and
    `csv_examples.dfy`.
- **Decimal convertor** (`StringToBigDecimalConvertor`):
  - The thousand-separator check.
  - Its in-place compaction and rewriting of a `char[]`.
  - Both fixed instances.
  - Files: `decimal_convertor.dfy`, `decimal_properties.dfy` and `big_decimal.dfy`.
- **String converters**:
  - The shared trim/blank/null rule of `AbstractStringConverter`.
  - The currency code converter.
  - `Converter.castAndConvert`.
  - Files: `converters.dfy`, `currency_converter.dfy` and `java_text.dfy`.
- **Fields, metadata and records**: `Field`/`SimpleField`, `SimpleRecordMetaData` and
  `SimpleImmutableRecord`. Files: `fields.dfy`, `metadata.dfy`, `records.dfy` and `types.dfy`.
- **Value types**: `CsvExtractionException` and `Price`. Files: `csv_extraction_exception.dfy`
  and `prices.dfy`.

## How the CSV engine is modelled

`CsvModel` describes the spliterator functionally.
- `Scanner` holds the spliterator's fields:
  - the characters delivered so far;
  - `eof`, `finished` and `lastCrChar`;
  - the skip, line and record counters;
  - the `StringBuilder` buffer;
  - the `values` array.
- `Row` holds `readRow`'s local variables.
- `Step` is one pass of the `while (true)` loop.
- `ReadRowFrom` is the rest of the loop from a state.
- `ReadRow`, `SkipRows` and `TryAdvance` are the methods of the same names.
- `Reached` is the spliterator at each call of `tryAdvance` in a stream, for as long as no call has thrown.

`CsvExtractor.CsvSpliterator` is a class with those fields. Its methods mirror the Java methods
one for one, and each is proved to leave exactly the state the model function gives:
- `ReadRow` holds the `while (true)` loop;
- `SkipRows` holds the header loop;
- `TryAdvance` copies `values` into the record;
- `NewExtractor` fills the field table in a loop.

The loop body of `readRow` is split into `ProcessChar`, `LineBreak`, `DispatchChar`, `Quote`,
`Separator` and `DataChar`. Each takes the loop's locals as a `Row` value and returns them
updated.

`CsvProperties` states what the source promises about the model:
- each kind of character step;
- runs of quoted text, unquoted text and enclosed line breaks, proved by induction;
- the quoted-field round trip;
- that errors name the character they arose at, in every call of a stream (`ExtractionErrorsAddressed`);
- that header rows convert nothing;
- that a blank line finishes the data;
- the conversion of each field.

`CsvRoundTrip` proves that a row written as a CSV writer writes it is read back whole. Each
value is quoted with its quotes doubled, the values are joined by the separator, and a line
feed ends the row. The proof goes field by field, by induction on the values ahead.

`CsvExamples` builds the tests' extractor through `NewExtractor`. It then follows the test
`abc,,10` plus a line break through `TryAdvance` to the exact error the test expects.

The decimal convertor keeps the source's form:
- `RemoveThousandSeparator` and `ReplaceCharacters` are methods over an `array<char>`, with
  the conditional index advance and `System.arraycopy`.
- Declarative functions (`Ungroup`, `Replace`, `Convert`) specify these methods, and
  `DecimalProperties` proves the grouping rules and the round trip about the functions.

The source's behaviour is modelled as written, including these edge cases:
- At the end of the input `handleEof` tests for a blank line before it tests for an open
  enclosure. So an opening quote followed only by blanks, in the first field of the last line,
  ends the data instead of raising "Field has not been enclosed properly"
  (`CsvProperties.EndOfInput`).
- Exceptions other than `ConversionException` that a field's conversion throws are not caught
  by `appendFieldValue` and end the stream as they are. These are the `ClassCastException` of
  a cast and the `NumberFormatException` of the `BigDecimal` constructor.
- `getField(i)` indexes the sorted list. It does not look up the field of ordinal `i`.

`StringConverter.INSTANCE` (the converter `StringText`) is not part of this model's sources.
It is modelled as an `AbstractStringConverter` whose `doConvert` returns the trimmed text
unchanged, which is what the extractor's tests expect of it. This is an assumption.

Source paths below are relative to the repository root.

## Model

| member | source | states |
|---|---|---|
| JavaText.Trim | src/main/java/eu/volsch/stockmountain/extraction/conversion/AbstractStringConverter.java:50 | `String.trim`: the result is the infix left after the leading and trailing characters up to U+0020 are cut; it is empty exactly when every character is such a blank, and otherwise starts and ends with a non-blank |
| JavaText.TrimIdempotent | src/main/java/eu/volsch/stockmountain/extraction/conversion/AbstractStringConverter.java:50-53 | Trimming text that is already trimmed changes nothing |
| JavaText.BlankTrimmed | src/main/java/eu/volsch/stockmountain/extraction/csv/CsvExtractor.java:315 | For a blank string (`isBlank`, as `isEmptyLine` tests the buffer) `trim` leaves nothing exactly when every character is ASCII: blank lines and blank values agree only on ASCII whitespace |
| JavaText.IntToString | src/main/java/eu/volsch/stockmountain/extraction/csv/CsvExtractionException.java:84-87 | `Integer.toString` as `StringBuilder.append(int)` writes it: a minus sign exactly for negative numbers, then the digits of the magnitude, whose decimal value is the magnitude, without leading zeros |
| JavaText.Utf16Char | src/main/java/eu/volsch/stockmountain/model/Price.java:55 | A character is stored as one UTF-16 code unit below U+10000 (never a surrogate) and otherwise as a high surrogate followed by a low surrogate from which the character is recovered |
| JavaText.Utf16 | src/main/java/eu/volsch/stockmountain/model/Price.java:55 | A string's code units, each below 0x10000, at least one per character |
| JavaText.Utf16Injective | src/main/java/eu/volsch/stockmountain/model/Price.java:55 | Different strings have different code unit sequences |
| JavaText.CompareUnits | src/main/java/eu/volsch/stockmountain/model/Price.java:55 | The lexicographic comparison of code unit sequences is zero exactly for equal sequences |
| JavaText.CompareUnitsAntisymmetric | src/main/java/eu/volsch/stockmountain/model/Price.java:55 | Swapping two code unit sequences negates their comparison |
| JavaText.CompareUnitsTransitive | src/main/java/eu/volsch/stockmountain/model/Price.java:55 | The code unit comparison is transitive on negative results |
| JavaText.CompareStrings | src/main/java/eu/volsch/stockmountain/model/Price.java:55 | `String.compareTo` is the comparison of the strings' UTF-16 code units and is zero exactly for equal strings |
| JavaText.CompareStringsByCodeUnits | src/main/java/eu/volsch/stockmountain/model/Price.java:55 | U+FFFF sorts after U+10000 by `String.compareTo` (difference 0x27FF) although its code point is smaller |
| JavaText.CompareStringsAntisymmetric | src/main/java/eu/volsch/stockmountain/model/Price.java:55-58 | Swapping the strings negates `String.compareTo` |
| JavaText.CompareStringsTransitive | src/main/java/eu/volsch/stockmountain/model/Price.java:55-58 | `String.compareTo` is transitive on negative results |
| BigDecimals.CompareTo | src/main/java/eu/volsch/stockmountain/model/Price.java:59 | `BigDecimal.compareTo` is -1, 0 or 1 exactly as the first number is numerically below, equal to or above the second, whatever the scales |
| BigDecimals.CompareToIgnoresScale | src/main/java/eu/volsch/stockmountain/model/Price.java:71 | A number and the same number at a larger scale (2.5 and 2.50) compare as equal |
| BigDecimals.Parse | src/main/java/eu/volsch/stockmountain/extraction/conversion/StringToBigDecimalConvertor.java:66 | The `BigDecimal` constructor accepts only text holding a digit; a negative result comes from a leading `-`; the scale is below the text's length, and zero without a point |
| BigDecimals.ParseNumber | src/main/java/eu/volsch/stockmountain/extraction/conversion/StringToBigDecimalConvertor.java:66 | The `BigDecimal` constructor reads an optional sign, digits and an optional point with fraction digits as all digits taken as one number, negated for `-`, at the scale of the fraction's length |
| BigDecimals.ParseSigned | src/main/java/eu/volsch/stockmountain/extraction/conversion/StringToBigDecimalConvertor.java:66 | A leading sign in front of unsigned text negates the number for `-`, keeps it for `+`, and is refused where the unsigned text is |
| BigDecimals.LeadingZerosValue | src/main/java/eu/volsch/stockmountain/extraction/conversion/StringToBigDecimalConvertor.java:66 | Zeros in front of digits leave them digits and leave their decimal value unchanged |
| BigDecimals.PlainDigits | src/main/java/eu/volsch/stockmountain/model/Price.java:81 | The plain notation of a number has at least one digit before the point and exactly `scale` digits after it, together standing for the magnitude of the unscaled value |
| BigDecimals.ToStringScientific | src/main/java/eu/volsch/stockmountain/model/Price.java:81 | `BigDecimal.toString` writes 10^-7 (scale 7) in scientific notation as `1E-7` |
| BigDecimals.ToString | src/main/java/eu/volsch/stockmountain/model/Price.java:81 | `BigDecimal.toString` writes an `E` whenever it does not use plain notation |
| DecimalProperties.PlainStringParses | src/main/java/eu/volsch/stockmountain/model/Price.java:81 | Round trip: the `BigDecimal` constructor reads `toPlainString`'s text back as the same number at the same scale |
| DecimalProperties.ToStringParses | src/main/java/eu/volsch/stockmountain/model/Price.java:81 | Round trip: whatever `toString` writes in plain notation the `BigDecimal` constructor reads back as the same number at the same scale |
| Types.Cast | src/main/java/eu/volsch/stockmountain/extraction/conversion/Converter.java:68 | `Class.cast`: succeeds exactly for null and instances of the class, returning the value unchanged; anything else is a `ClassCastException` |
| CurrencyConverter.DoConvert | src/main/java/eu/volsch/stockmountain/extraction/conversion/StringToCurrencyConverter.java:40-56 | Succeeds exactly for three upper-case ASCII letters, returning the text unchanged; anything else is a `ConversionException` naming the text |
| CurrencyConverter.RejectsLowerCase | src/main/java/eu/volsch/stockmountain/extraction/conversion/StringToCurrencyConverter.java:52-53 | A lower-case letter anywhere (as in `eur`) is refused |
| CurrencyConverter.RejectsLength | src/main/java/eu/volsch/stockmountain/extraction/conversion/StringToCurrencyConverter.java:52-53 | A code of any length but three (as `EU`) is refused |
| Converters.DoConvert | src/main/java/eu/volsch/stockmountain/extraction/conversion/AbstractStringConverter.java:64 | Each converter's `doConvert` yields a non-null instance of its target type or fails with a `ConversionException` about the given text; only the decimal converter may also let a `NumberFormatException` through |
| Converters.DecimalErrors | src/main/java/eu/volsch/stockmountain/extraction/conversion/StringToBigDecimalConvertor.java:62-67 | The decimal conversion fails only with a `ConversionException` about its text or a `NumberFormatException` |
| Converters.Convert | src/main/java/eu/volsch/stockmountain/extraction/conversion/AbstractStringConverter.java:46-55 | Null, and text that trimming empties, convert to null and nothing else does; otherwise the result is `doConvert` of the trimmed text, an instance of the target type when not null |
| Converters.ConvertIgnoresSurroundingBlanks | src/main/java/eu/volsch/stockmountain/extraction/conversion/AbstractStringConverter.java:50-54 | Text and its trimmed form convert alike |
| Converters.CastAndConvert | src/main/java/eu/volsch/stockmountain/extraction/conversion/Converter.java:66-69 | Null and strings reach `convert` unchanged; any other value fails with a `ClassCastException` before `convert` runs |
| DecimalConvertor.FirstOffending | src/main/java/eu/volsch/stockmountain/extraction/conversion/StringToBigDecimalConvertor.java:73-86 | The first position `replaceCharacters` rejects: nothing before it is rejected, and it is rejected unless it is the end |
| DecimalConvertor.Ungroup | src/main/java/eu/volsch/stockmountain/extraction/conversion/StringToBigDecimalConvertor.java:93-122 | `removeThousandSeparator` keeps everything from the first decimal separator on, and before it leaves no more characters than there were and no grouping mark; its only error is the thousand separator `ConversionException` about the original text |
| DecimalConvertor.Replace | src/main/java/eu/volsch/stockmountain/extraction/conversion/StringToBigDecimalConvertor.java:69-87 | `replaceCharacters` fails exactly when some character is rejected, then with the decimal separator or invalid characters `ConversionException` about the original text; on success it keeps the length and leaves only digits, points and a leading sign |
| DecimalConvertor.Convert | src/main/java/eu/volsch/stockmountain/extraction/conversion/StringToBigDecimalConvertor.java:62-67 | `doConvert` fails only with a `ConversionException` about the given text or the constructor's `NumberFormatException` |
| DecimalConvertor.WithPoint | src/main/java/eu/volsch/stockmountain/extraction/conversion/StringToBigDecimalConvertor.java:75-82 | Every decimal separator becomes a point and every other character stays |
| DecimalConvertor.ShiftLeft | src/main/java/eu/volsch/stockmountain/extraction/conversion/StringToBigDecimalConvertor.java:114 | `System.arraycopy` one place left: the prefix and the tail stay, the moved characters are their right neighbours |
| DecimalConvertor.RemoveThousandSeparator | src/main/java/eu/volsch/stockmountain/extraction/conversion/StringToBigDecimalConvertor.java:93-135 | The in-place scan computes `Ungroup`: on success the array's first `len` characters are the text with the marks of its integer part removed; it fails with the thousand separator message exactly when the integer part is not grouped correctly |
| DecimalConvertor.ReplaceCharacters | src/main/java/eu/volsch/stockmountain/extraction/conversion/StringToBigDecimalConvertor.java:69-91 | The in-place pass computes `Replace`: it succeeds exactly when no character is rejected, leaving the text with the decimal separator as a point; a second decimal separator (comma instance) and a non-digit other than a leading sign fail with their own messages |
| DecimalConvertor.DoConvert | src/main/java/eu/volsch/stockmountain/extraction/conversion/StringToBigDecimalConvertor.java:62-67 | The method over a character array gives exactly the declarative `Convert` |
| DecimalConvertor.ClosedInvalidStaysInvalid | src/main/java/eu/volsch/stockmountain/extraction/conversion/StringToBigDecimalConvertor.java:109 | Once a group closed by a mark is misplaced, no continuation of the text is grouped correctly (the scan may stop there) |
| DecimalProperties.GroupedSizes | src/main/java/eu/volsch/stockmountain/extraction/conversion/StringToBigDecimalConvertor.java:131-132 | Digits grouped by threes from the right have a first group of one to three digits besides the sign and groups of exactly three after it |
| DecimalProperties.GroupedRemoveMarks | src/main/java/eu/volsch/stockmountain/extraction/conversion/StringToBigDecimalConvertor.java:108-117 | Removing the marks from digits grouped by threes gives back the sign and the digits |
| DecimalProperties.UngroupNumber | src/main/java/eu/volsch/stockmountain/extraction/conversion/StringToBigDecimalConvertor.java:93-122 | A number with or without grouping marks passes `removeThousandSeparator`, which leaves the sign, the digits and the decimal part |
| DecimalProperties.ReplaceNumber | src/main/java/eu/volsch/stockmountain/extraction/conversion/StringToBigDecimalConvertor.java:69-87 | A sign, digits and at most one decimal separator with its fraction pass `replaceCharacters`, the separator becoming a point |
| DecimalProperties.ConvertNumber | src/main/java/eu/volsch/stockmountain/extraction/conversion/StringToBigDecimalConvertor.java:62-67 | Round trip: a number written with an optional sign, its digits grouped by threes with the thousand separator or a blank (or not grouped) and an optional decimal separator and fraction converts to all its digits read as one number, negated for `-`, at the scale of the fraction |
| DecimalProperties.ConvertSeparatorError | src/main/java/eu/volsch/stockmountain/extraction/conversion/StringToBigDecimalConvertor.java:128-135 | The conversion fails with the thousand separator message if and only if the text before the first decimal separator is not grouped correctly |
| DecimalProperties.ConvertRejectsFirstGroup | src/main/java/eu/volsch/stockmountain/extraction/conversion/StringToBigDecimalConvertor.java:131 | A first group, closed by a mark, of other than one to three characters besides a leading sign is refused (`.456.789,23456`, `1234.456.789,23456`) |
| DecimalProperties.ConvertRejectsGroup | src/main/java/eu/volsch/stockmountain/extraction/conversion/StringToBigDecimalConvertor.java:132 | A group after a mark of other than three characters is refused, whether another mark, the decimal separator or the end closes it (`123.45.789,23456`, `123.456.78`) |
| DecimalProperties.ConvertRejectsSecondComma | src/main/java/eu/volsch/stockmountain/extraction/conversion/StringToBigDecimalConvertor.java:75-80 | With the decimal comma instance, a number with a fraction and then a second `,` fails with the invalid decimal separator message, whatever follows (`123.456.789,234,56`) |
| DecimalProperties.ConvertRejectsLaterMark | src/main/java/eu/volsch/stockmountain/extraction/conversion/StringToBigDecimalConvertor.java:83-85 | Marks are removed only before the decimal separator, so a thousand separator or blank after the fraction digits fails as an invalid character (`123,456.,789,,`) |
| DecimalProperties.ConvertRejectsSecondPoint | src/main/java/eu/volsch/stockmountain/extraction/conversion/StringToBigDecimalConvertor.java:62-72 | With the decimal point instance a second point passes both checks and the `BigDecimal` constructor refuses it: a `NumberFormatException`, not a conversion error |
| DecimalProperties.ConvertUngrouped | src/main/java/eu/volsch/stockmountain/extraction/conversion/StringToBigDecimalConvertor.java:62-67 | Any text equal to a sign, ungrouped digits and an optional separator with fraction digits converts to those digits as one number, negated for `-`, at the fraction's scale |
| DecimalProperties.ConvertPlainString | src/main/java/eu/volsch/stockmountain/extraction/conversion/StringToBigDecimalConvertor.java:62-67 | Round trip: the decimal-point converter reads the plain notation (`toPlainString`) of every number back as exactly that number, scale included |
| DecimalProperties.ConvertToString | src/main/java/eu/volsch/stockmountain/extraction/conversion/StringToBigDecimalConvertor.java:62-67 | Whenever `BigDecimal.toString` uses plain notation, the decimal-point converter reads its output back as the same number |
| DecimalProperties.UngroupUnmarked | src/main/java/eu/volsch/stockmountain/extraction/conversion/StringToBigDecimalConvertor.java:93-135 | Text with neither marks nor a decimal separator passes `removeThousandSeparator` unchanged |
| DecimalProperties.ConvertRefusesExponent | src/main/java/eu/volsch/stockmountain/extraction/conversion/StringToBigDecimalConvertor.java:69-91 | `1E-7` is refused with the invalid-characters error because of its `E` |
| DecimalProperties.ToStringScientificRefused | src/main/java/eu/volsch/stockmountain/extraction/conversion/StringToBigDecimalConvertor.java:62-67 | The output of `BigDecimal.toString` is not always read back: for 10^-7 it is scientific notation, and the converter refuses it with the invalid-characters error |
| Fields.NewField | src/main/java/eu/volsch/stockmountain/extraction/api/SimpleField.java:80-87 | The five-argument constructor succeeds exactly when name and type are not null, failing with a `NullPointerException`, and then the accessors return the arguments |
| Fields.NewNullableField | src/main/java/eu/volsch/stockmountain/extraction/api/SimpleField.java:66-69 | The four-argument constructor is the five-argument one with `nullable` true |
| Fields.Cast | src/main/java/eu/volsch/stockmountain/extraction/api/Field.java:85-88 | `cast` succeeds exactly for null and instances of the field's type, returning the value unchanged; otherwise a `ClassCastException` |
| Fields.Convert | src/main/java/eu/volsch/stockmountain/extraction/api/SimpleField.java:110-116 | Without a converter `convert` is `cast` (the default of `Field.convert`); with one it is the converter's `castAndConvert` |
| Fields.EqualsIsEquivalence | src/main/java/eu/volsch/stockmountain/extraction/api/SimpleField.java:120-130 | `equals` is reflexive, symmetric and transitive |
| Fields.EqualsIgnoresConverter | src/main/java/eu/volsch/stockmountain/extraction/api/SimpleField.java:120-130 | Fields differing only in their converters are equal |
| Fields.EqualsDeterminesField | src/main/java/eu/volsch/stockmountain/extraction/api/SimpleField.java:120-130 | Equal fields with the same converter are the same field |
| Fields.Equals | src/main/java/eu/volsch/stockmountain/extraction/api/SimpleField.java:118-130 | `equals` holds exactly when the fields agree in everything but their converters |
| Fields.ToString | src/main/java/eu/volsch/stockmountain/extraction/api/SimpleField.java:144-146 | `toString` is the name, the same text for every field equal to this one |
| Fields.Wrap32 | src/main/java/eu/volsch/stockmountain/extraction/api/SimpleField.java:141 | 32-bit wrap-around: the result is in the `int` range and congruent to the input modulo 2^32 |
| Fields.UnitsHashPolynomial | src/main/java/eu/volsch/stockmountain/extraction/api/SimpleField.java:141 | Horner's rule with 31 in wrapping `int` arithmetic is the unbounded polynomial modulo 2^32 |
| Fields.StringHash | src/main/java/eu/volsch/stockmountain/extraction/api/SimpleField.java:141 | `String.hashCode` is an `int` congruent modulo 2^32 to the polynomial with base 31 over the string's UTF-16 code units |
| Fields.StringHashBySurrogates | src/main/java/eu/volsch/stockmountain/extraction/api/SimpleField.java:141 | U+10000 hashes as its surrogate pair, `31 * 0xD800 + 0xDC00`, not as its code point |
| Fields.HashCode | src/main/java/eu/volsch/stockmountain/extraction/api/SimpleField.java:133-142 | `hashCode` is `Objects.hash(name, ordinal, type, nullable)`: an `int` congruent modulo 2^32 to the polynomial with base 31 over 1 and the hashes of the name, the ordinal, the type and the flag (1231 or 1237) |
| Fields.HashCodeConsistent | src/main/java/eu/volsch/stockmountain/extraction/api/SimpleField.java:133-142 | Equal fields have equal hash codes, whatever the identity hashes of the `Class` objects |
| MetaData.Insert | src/main/java/eu/volsch/stockmountain/extraction/api/SimpleRecordMetaData.java:60-62 | Inserting into a list sorted by ordinal keeps it sorted and adds exactly the one field |
| MetaData.SortByOrdinal | src/main/java/eu/volsch/stockmountain/extraction/api/SimpleRecordMetaData.java:60-62 | The sorted list is sorted by ordinal and a permutation of the fields |
| MetaData.MaxOrdinal | src/main/java/eu/volsch/stockmountain/extraction/api/SimpleRecordMetaData.java:63-65 | The maximum ordinal is the ordinal of some field and no field's is larger |
| MetaData.NewMetaData | src/main/java/eu/volsch/stockmountain/extraction/api/SimpleRecordMetaData.java:57-67 | Construction succeeds exactly for a non-empty set, failing with an `IllegalArgumentException`, and yields a sorted permutation of the fields with their maximum ordinal |
| MetaData.PermutationKeepsMaximum | src/main/java/eu/volsch/stockmountain/extraction/api/SimpleRecordMetaData.java:59-65 | Sorting does not change the maximum ordinal |
| MetaData.MaximumIsLast | src/main/java/eu/volsch/stockmountain/extraction/api/SimpleRecordMetaData.java:80-82 | The maximum ordinal is the last field's |
| MetaData.FieldStream | src/main/java/eu/volsch/stockmountain/extraction/api/SimpleRecordMetaData.java:70-72 | `fieldStream` gives the fields by ascending ordinal |
| MetaData.ContainsField | src/main/java/eu/volsch/stockmountain/extraction/api/SimpleRecordMetaData.java:75-76 | `containsField` holds exactly when some listed field is the given one but for its converter, as the set's `equals` decides |
| MetaData.ContainedOrdinal | src/main/java/eu/volsch/stockmountain/extraction/api/SimpleRecordMetaData.java:75-82 | A contained field's ordinal is at most the maximum ordinal |
| MetaData.GetField | src/main/java/eu/volsch/stockmountain/extraction/api/SimpleRecordMetaData.java:90-96 | `getField(i)` succeeds exactly for `0 <= i < getFieldCount()` and gives the i-th field of the sorted list |
| MetaData.GetFieldOrdered | src/main/java/eu/volsch/stockmountain/extraction/api/SimpleRecordMetaData.java:90-96 | `getField` is monotone in the ordinal |
| MetaData.FieldCount | src/main/java/eu/volsch/stockmountain/extraction/api/SimpleRecordMetaData.java:85-87 | `getFieldCount` of well-formed metadata is at least one |
| MetaData.NewMetaDataCountsFields | src/main/java/eu/volsch/stockmountain/extraction/api/SimpleRecordMetaData.java:85-87 | For a set of fields `getFieldCount` is its size and `containsField` holds for each of them |
| Records.NewRecord | src/main/java/eu/volsch/stockmountain/extraction/api/SimpleImmutableRecord.java:52-59 | Construction succeeds exactly when there are more values than the maximum ordinal, failing with an `IllegalArgumentException`; the record keeps the metadata and its own copy of the values |
| Records.GetValue | src/main/java/eu/volsch/stockmountain/extraction/api/SimpleImmutableRecord.java:67-72 | A field not in the metadata is refused with an `IllegalArgumentException`; otherwise the result is the field's cast of the slot at its ordinal |
| Records.GetValueReturnsStored | src/main/java/eu/volsch/stockmountain/extraction/api/SimpleImmutableRecord.java:52-72 | A record read by one of its fields gives back the stored value when that matches the field's type |
| Prices.CompareTo | src/main/java/eu/volsch/stockmountain/model/Price.java:54-60 | Different currencies order by `String.compareTo` (never zero); equal currencies order by numeric value |
| Prices.EqualsIffCompareZero | src/main/java/eu/volsch/stockmountain/model/Price.java:63-72 | `equals` holds if and only if `compareTo` is zero |
| Prices.Equals | src/main/java/eu/volsch/stockmountain/model/Price.java:62-72 | `equals` holds if and only if the amounts are numerically equal and the currencies equal |
| Prices.EqualsIgnoresScale | src/main/java/eu/volsch/stockmountain/model/Price.java:71 | 2.5 EUR equals 2.50 EUR |
| Prices.CompareToAntisymmetric | src/main/java/eu/volsch/stockmountain/model/Price.java:54-60 | Swapping the prices negates the sign of `compareTo` |
| Prices.CompareToTransitive | src/main/java/eu/volsch/stockmountain/model/Price.java:54-60 | `compareTo` is transitive |
| Prices.ToString | src/main/java/eu/volsch/stockmountain/model/Price.java:80-82 | The text starts with the amount as `BigDecimal.toString` writes it and ends with a space and the currency |
| Prices.ToStringExample | src/test/java/eu/volsch/stockmountain/model/PriceTest.java:78-82 | -20.57 in DEF prints as `-20.57 DEF` |
| CsvExceptions.ToString | src/main/java/eu/volsch/stockmountain/extraction/csv/CsvExtractionException.java:82-93 | The text starts with the class name and a colon and ends with `" : "` and the message |
| CsvExceptions.ToStringListsCounters | src/main/java/eu/volsch/stockmountain/extraction/csv/CsvExtractionException.java:83-87 | The record, line, field and position numbers occur with their labels, in that order |
| CsvExceptions.ToStringQuotesInvalidValue | src/main/java/eu/volsch/stockmountain/extraction/csv/CsvExtractionException.java:88-92 | After the counters come the invalid value in double quotes when there is one, then `" : "` and the message; without one the message follows the counters directly |
| CsvModel.FieldAt | src/main/java/eu/volsch/stockmountain/extraction/csv/CsvExtractor.java:120-122 | The table slot of ordinal `i` holds a field of the list with that ordinal, and is empty exactly when no field has it |
| CsvModel.AppendFieldValue | src/main/java/eu/volsch/stockmountain/extraction/csv/CsvExtractor.java:365-388 | A successful append empties the buffer, changes at most the slot of the field index and nothing else of the state |
| CsvModel.HandleEol | src/main/java/eu/volsch/stockmountain/extraction/csv/CsvExtractor.java:287-312 | `handleEol` keeps one slot per ordinal and leaves the reader and skip count alone (its behaviour is stated by the line-break lemmas below) |
| CsvModel.LineEnd | src/main/java/eu/volsch/stockmountain/extraction/csv/CsvExtractor.java:303-311 | As `HandleEol`, for a line end outside an enclosure |
| CsvModel.Step | src/main/java/eu/volsch/stockmountain/extraction/csv/CsvExtractor.java:206-249 | One pass of the loop keeps one slot per ordinal and leaves the reader and skip count alone (its behaviour is stated by the step lemmas below) |
| CsvModel.LineBreak | src/main/java/eu/volsch/stockmountain/extraction/csv/CsvExtractor.java:217-230 | As `Step`, for a line break |
| CsvModel.Dispatch | src/main/java/eu/volsch/stockmountain/extraction/csv/CsvExtractor.java:217-249 | As `Step`, once the positions are advanced |
| CsvModel.Quote | src/main/java/eu/volsch/stockmountain/extraction/csv/CsvExtractor.java:231-236 | A quote changes only the buffer and clears the CR flag |
| CsvModel.Separator | src/main/java/eu/volsch/stockmountain/extraction/csv/CsvExtractor.java:237-243 | As `Step`, for a separator |
| CsvModel.DataChar | src/main/java/eu/volsch/stockmountain/extraction/csv/CsvExtractor.java:244-249 | A data character changes only the buffer and the CR flag |
| CsvModel.HandleEof | src/main/java/eu/volsch/stockmountain/extraction/csv/CsvExtractor.java:318-327 | As `Step`, at the end of the input (its behaviour is stated by `EndOfInput`) |
| CsvModel.ReadRowFrom | src/main/java/eu/volsch/stockmountain/extraction/csv/CsvExtractor.java:205-250 | The rest of the loop keeps one slot per ordinal, the reader consistent with the input and the skip count |
| CsvModel.NextChar | src/main/java/eu/volsch/stockmountain/extraction/csv/CsvExtractor.java:206-249 | Likewise for one character read and the rest of the loop |
| CsvModel.Continue | src/main/java/eu/volsch/stockmountain/extraction/csv/CsvExtractor.java:218-230 | Likewise for the `switch` on a pass's outcome and the rest of the loop |
| CsvModel.ReadRowFromEnd | src/main/java/eu/volsch/stockmountain/extraction/csv/CsvExtractor.java:206-209 | Once the reader reports the end, the rest of `readRow` is `handleEof` |
| CsvModel.ReadRowFromChar | src/main/java/eu/volsch/stockmountain/extraction/csv/CsvExtractor.java:205-250 | Before the end the rest of `readRow` is one pass on the next character, then either the rest, `true` on `RETURN`, or the exception |
| CsvModel.ReadRow | src/main/java/eu/volsch/stockmountain/extraction/csv/CsvExtractor.java:195-204 | `readRow` keeps one slot per ordinal, the reader consistent with the input and the skip count |
| CsvModel.SkipRows | src/main/java/eu/volsch/stockmountain/extraction/csv/CsvExtractor.java:184-193 | `skipRows` keeps one slot per ordinal and the reader consistent with the input |
| CsvModel.SkipRowsStep | src/main/java/eu/volsch/stockmountain/extraction/csv/CsvExtractor.java:185-191 | One pass of `skipRows`: a header row read counts one skip and skipping goes on; otherwise its outcome is the result |
| CsvModel.DataRow | src/main/java/eu/volsch/stockmountain/extraction/csv/CsvExtractor.java:174-177 | Reading a data row keeps one slot per ordinal and the reader consistent with the input |
| CsvModel.TryAdvance | src/main/java/eu/volsch/stockmountain/extraction/csv/CsvExtractor.java:168-182 | `tryAdvance` keeps one slot per ordinal and the reader consistent with the input |
| CsvModel.Reached | src/main/java/eu/volsch/stockmountain/extraction/csv/CsvExtractor.java:168-182 | The spliterator of each call of `tryAdvance` in a stream, from a fresh one through as many calls as have not thrown, fits the extractor and has read no further than the input |
| CsvExtractor.NewExtractor | src/main/java/eu/volsch/stockmountain/extraction/csv/CsvExtractor.java:107-123 | A line break or quote as separator is refused with an `IllegalArgumentException`, then an empty field set; otherwise the extractor keeps separator, skip count and limit, has `maxOrdinal + 1` slots and slot `i` holds the field of ordinal `i`, or none |
| CsvExtractor.FieldTable | src/main/java/eu/volsch/stockmountain/extraction/csv/CsvExtractor.java:120-122 | The loop over the sorted fields leaves in each slot exactly `FieldAt` of its ordinal |
| CsvExtractor.CsvSpliterator.constructor | src/main/java/eu/volsch/stockmountain/extraction/csv/CsvExtractor.java:162-166 | A fresh spliterator at the start of the input with every slot null |
| CsvExtractor.CsvSpliterator.Read | src/main/java/eu/volsch/stockmountain/extraction/csv/CsvExtractor.java:390-399 | `read` gives the next character and advances, or at the end sets `eof` and gives nothing, and once `eof` is set keeps giving nothing |
| CsvExtractor.CsvSpliterator.IncLineNo | src/main/java/eu/volsch/stockmountain/extraction/csv/CsvExtractor.java:253-260 | The new state is the model's `IncLineNo` |
| CsvExtractor.CsvSpliterator.HandleEnclose | src/main/java/eu/volsch/stockmountain/extraction/csv/CsvExtractor.java:275-285 | The new buffer and pending flag are the model's `HandleEnclose` |
| CsvExtractor.CsvSpliterator.IsEmptyLine | src/main/java/eu/volsch/stockmountain/extraction/csv/CsvExtractor.java:314-316 | The answer is the model's `IsEmptyLine` |
| CsvExtractor.CsvSpliterator.VerifyMaxRecordChars | src/main/java/eu/volsch/stockmountain/extraction/csv/CsvExtractor.java:329-335 | Throws exactly when the record position exceeds the limit, reporting the current record, line, field and position with no invalid value |
| CsvExtractor.CsvSpliterator.VerifyEnclosedEncloseChar | src/main/java/eu/volsch/stockmountain/extraction/csv/CsvExtractor.java:337-343 | Throws exactly when a character follows a closing quote inside an enclosed field |
| CsvExtractor.CsvSpliterator.VerifyEncloseEnd | src/main/java/eu/volsch/stockmountain/extraction/csv/CsvExtractor.java:345-351 | Throws exactly when an enclosure is still open |
| CsvExtractor.CsvSpliterator.VerifyMinFieldCount | src/main/java/eu/volsch/stockmountain/extraction/csv/CsvExtractor.java:353-363 | The exception is the model's `VerifyMinFieldCount` |
| CsvExtractor.CsvSpliterator.AppendFieldValue | src/main/java/eu/volsch/stockmountain/extraction/csv/CsvExtractor.java:365-388 | On success the new state is the model's; on an exception the model fails with it and the state is unchanged |
| CsvExtractor.CsvSpliterator.HandleEol | src/main/java/eu/volsch/stockmountain/extraction/csv/CsvExtractor.java:287-312 | The action or exception and the new state are the model's |
| CsvExtractor.CsvSpliterator.LineEnd | src/main/java/eu/volsch/stockmountain/extraction/csv/CsvExtractor.java:303-311 | The action or exception and the new state are the model's |
| CsvExtractor.CsvSpliterator.HandleEof | src/main/java/eu/volsch/stockmountain/extraction/csv/CsvExtractor.java:318-327 | The outcome and the new state are the model's |
| CsvExtractor.CsvSpliterator.ProcessChar | src/main/java/eu/volsch/stockmountain/extraction/csv/CsvExtractor.java:210-249 | The loop body's action and new state are the model's `Step` |
| CsvExtractor.CsvSpliterator.LineBreak | src/main/java/eu/volsch/stockmountain/extraction/csv/CsvExtractor.java:217-230 | The action and new state are the model's |
| CsvExtractor.CsvSpliterator.DispatchChar | src/main/java/eu/volsch/stockmountain/extraction/csv/CsvExtractor.java:217-249 | The action and new state are the model's |
| CsvExtractor.CsvSpliterator.Quote | src/main/java/eu/volsch/stockmountain/extraction/csv/CsvExtractor.java:231-236 | The action and new state are the model's |
| CsvExtractor.CsvSpliterator.Separator | src/main/java/eu/volsch/stockmountain/extraction/csv/CsvExtractor.java:237-243 | The action and new state are the model's |
| CsvExtractor.CsvSpliterator.DataChar | src/main/java/eu/volsch/stockmountain/extraction/csv/CsvExtractor.java:244-249 | The action and new state are the model's |
| CsvExtractor.CsvSpliterator.ReadRow | src/main/java/eu/volsch/stockmountain/extraction/csv/CsvExtractor.java:195-251 | The `while (true)` loop ends with the outcome and state of the model's `ReadRow` |
| CsvExtractor.CsvSpliterator.SkipRows | src/main/java/eu/volsch/stockmountain/extraction/csv/CsvExtractor.java:184-193 | The loop ends with the outcome and state of the model's `SkipRows` |
| CsvExtractor.CsvSpliterator.TryAdvance | src/main/java/eu/volsch/stockmountain/extraction/csv/CsvExtractor.java:168-182 | The record (over a copy of the values), the end or the exception, and the new state, are the model's `TryAdvance` |
| CsvProperties.ConvertNeverCsv | src/main/java/eu/volsch/stockmountain/extraction/csv/CsvExtractor.java:372-378 | A field's conversion never fails with a `CsvExtractionException`, so only the extractor's own are CSV errors |
| CsvProperties.AppendRaisedAt | src/main/java/eu/volsch/stockmountain/extraction/csv/CsvExtractor.java:375-382 | `appendFieldValue` raises its CSV errors at the current line and the position it is given |
| CsvProperties.StepCounters | src/main/java/eu/volsch/stockmountain/extraction/csv/CsvExtractor.java:210-215 | One pass: the line number is `incLineNo`'s, a line break then leaves `linePos` at zero and any other character advances it by one, and an error names the line and the advanced position |
| CsvProperties.StepCountsRecord | src/main/java/eu/volsch/stockmountain/extraction/csv/CsvExtractor.java:253-260 | One pass counts a record exactly when it reads the first character of a row or the first after a reset (`linePos` and `recordPos` both zero) |
| CsvProperties.DispatchAddressed | src/main/java/eu/volsch/stockmountain/extraction/csv/CsvExtractor.java:217-249 | After the positions advance: the line number stays, `linePos` is reset exactly by a line break, and an error names the current line and position |
| CsvProperties.CountersAdvance | src/main/java/eu/volsch/stockmountain/extraction/csv/CsvExtractor.java:253-260 | Counters that advance as the loop's do stay in step with the consumed input |
| CsvProperties.EofRaisedAt | src/main/java/eu/volsch/stockmountain/extraction/csv/CsvExtractor.java:318-327 | `handleEof` raises its errors at the current line and position |
| CsvProperties.ErrorsAddressed | src/main/java/eu/volsch/stockmountain/extraction/csv/CsvExtractor.java:195-260 | From a loop state whose line number and line position agree with the input consumed, every CSV error the rest of `readRow` raises names line 1 + the number of CR and LF characters consumed before the character at fault (inside enclosures too), and the position counted from 1 after the last of them; at the end of the input, the last line and its length |
| CsvProperties.StepDoneAtBreak | src/main/java/eu/volsch/stockmountain/extraction/csv/CsvExtractor.java:217-249 | A pass of the loop returns the row only on a line break |
| CsvProperties.RowEndAddressed | src/main/java/eu/volsch/stockmountain/extraction/csv/CsvExtractor.java:253-260 | Behind the line break that ends a row the counters agree with the input again, at the start of a row |
| CsvProperties.RowReadAddressed | src/main/java/eu/volsch/stockmountain/extraction/csv/CsvExtractor.java:195-251 | From a loop state whose counters agree with the input, a row is returned only with the reader at the end of the input or between two rows with its counters agreeing again; no row is returned only at the end |
| CsvProperties.ReadRowAddressed | src/main/java/eu/volsch/stockmountain/extraction/csv/CsvExtractor.java:195-204 | `readRow` called between two rows: its errors name where they arose, and otherwise it leaves the reader between two rows |
| CsvProperties.SkipRowsAddressed | src/main/java/eu/volsch/stockmountain/extraction/csv/CsvExtractor.java:184-193 | `skipRows` called between two rows: its errors name where they arose, and otherwise it leaves the reader between two rows |
| CsvProperties.TryAdvanceAddressed | src/main/java/eu/volsch/stockmountain/extraction/csv/CsvExtractor.java:168-182 | `tryAdvance` called between two rows: its errors name where they arose, and otherwise it leaves the reader between two rows |
| CsvProperties.ReachedBetweenRows | src/main/java/eu/volsch/stockmountain/extraction/csv/CsvExtractor.java:162-182 | A fresh spliterator is between two rows, and so is the spliterator of every later call of the stream |
| CsvProperties.ExtractionErrorsAddressed | src/main/java/eu/volsch/stockmountain/extraction/csv/CsvExtractor.java:168-182 | Every `CsvExtractionException` of a stream, in whichever record, header or data, names line 1 + the CR and LF characters read before the character at fault and the position after the last of them, or the last line and its length at the end of the input |
| CsvProperties.DataStep | src/main/java/eu/volsch/stockmountain/extraction/csv/CsvExtractor.java:244-249 | A data character is appended to the value; right after a closing quote inside an enclosure it is the "not enclosed properly" error at that position |
| CsvProperties.QuoteStep | src/main/java/eu/volsch/stockmountain/extraction/csv/CsvExtractor.java:231-236 | A quote at field position 1 opens an enclosure and adds nothing; inside one a first quote is held back and a second adds one literal quote |
| CsvProperties.SeparatorStep | src/main/java/eu/volsch/stockmountain/extraction/csv/CsvExtractor.java:237-243 | A separator outside an enclosure or right after its closing quote appends the field and starts the next at position 0, or ends the row with the append's error |
| CsvProperties.RecordLimit | src/main/java/eu/volsch/stockmountain/extraction/csv/CsvExtractor.java:210-215 | A character beyond `maxRecordsChars` is refused before it is looked at, with no invalid value |
| CsvProperties.EnclosedBreakStep | src/main/java/eu/volsch/stockmountain/extraction/csv/CsvExtractor.java:289-295 | Inside an enclosure a line break adds `\n` unless it is the LF of a CRLF, and the row goes on at line position 0 |
| CsvProperties.NormalisedForms | src/main/java/eu/volsch/stockmountain/extraction/csv/CsvExtractor.java:289-294 | CR, LF and CRLF each become one `\n`, CR CR LF two |
| CsvProperties.EnclosedBreaks | src/main/java/eu/volsch/stockmountain/extraction/csv/CsvExtractor.java:289-295 | A run of line breaks inside an enclosure adds its normalised newlines to the value, counts a line for each break but the first, and leaves the enclosure open |
| CsvProperties.CrLfSwallowed | src/main/java/eu/volsch/stockmountain/extraction/csv/CsvExtractor.java:297-301 | Outside an enclosure an LF right after a CR empties the buffer and restarts the record without producing a row |
| CsvProperties.BlankLine | src/main/java/eu/volsch/stockmountain/extraction/csv/CsvExtractor.java:303-307 | Outside an enclosure a line break after a blank line with no separator sets `finished` and restarts the record |
| CsvProperties.RowEnd | src/main/java/eu/volsch/stockmountain/extraction/csv/CsvExtractor.java:303-311 | A line break ending a line that is not blank ends the row: after a blank line with "No more data expected", with too few fields with the field count error, otherwise with the last field's append |
| CsvProperties.EndOfInput | src/main/java/eu/volsch/stockmountain/extraction/csv/CsvExtractor.java:318-327 | At the end of the input a blank last line is no row; otherwise an open enclosure, then a row after a blank line, then a short row is an error at the last position |
| CsvProperties.EnclosedChar | src/main/java/eu/volsch/stockmountain/extraction/csv/CsvExtractor.java:275-283 | Inside an enclosure with no quote pending, a character adds itself and a doubled quote adds one quote |
| CsvProperties.EnclosedText | src/main/java/eu/volsch/stockmountain/extraction/csv/CsvExtractor.java:231-249 | Inside an enclosure an escaped run adds exactly the text it stands for and leaves the enclosure open with no quote pending |
| CsvProperties.OpenedText | src/main/java/eu/volsch/stockmountain/extraction/csv/CsvExtractor.java:231-236 | An opening quote then an escaped run leaves the text it stands for in the value |
| CsvProperties.ClosedField | src/main/java/eu/volsch/stockmountain/extraction/csv/CsvExtractor.java:231-249 | An opening quote, an escaped run and a closing quote leave the text the run stands for in the value, with the closing quote pending |
| CsvProperties.QuotedField | src/main/java/eu/volsch/stockmountain/extraction/csv/CsvExtractor.java:231-249 | Round trip: a quote, any text without line breaks written with its quotes doubled, and a closing quote put exactly that text in the value, with the closing quote pending |
| CsvProperties.PlainText | src/main/java/eu/volsch/stockmountain/extraction/csv/CsvExtractor.java:244-249 | The characters of an unquoted field, quotes included after its first position, are appended as they are |
| CsvProperties.StepKeeps | src/main/java/eu/volsch/stockmountain/extraction/csv/CsvExtractor.java:367 | One pass of a header row converts nothing, and once the data is finished no row ends successfully |
| CsvProperties.ReadRowKeeps | src/main/java/eu/volsch/stockmountain/extraction/csv/CsvExtractor.java:195-251 | A header row leaves every slot as it was; once the data is finished it stays finished and no row is read |
| CsvProperties.SkipRowsKeeps | src/main/java/eu/volsch/stockmountain/extraction/csv/CsvExtractor.java:184-193 | Skipping header rows leaves every slot as it was, and finished data finished |
| CsvProperties.FinishedYieldsNoRecord | src/main/java/eu/volsch/stockmountain/extraction/csv/CsvExtractor.java:304-307 | Once a blank line has finished the data, no further record is produced |
| CsvProperties.FieldAtOwnOrdinal | src/main/java/eu/volsch/stockmountain/extraction/csv/CsvExtractor.java:119-122 | With distinct ordinals every field lands in the slot of its own ordinal |
| CsvProperties.AppendConverts | src/main/java/eu/volsch/stockmountain/extraction/csv/CsvExtractor.java:365-388 | On a data row a declared slot succeeds exactly when the conversion does and is not a forbidden null, then holds the converted value; a `ConversionException` becomes a CSV error carrying the raw text, a forbidden null one with the null message, other errors pass through |
| CsvProperties.BlankIsNull | src/main/java/eu/volsch/stockmountain/extraction/csv/CsvExtractor.java:379-383 | A blank field of a non-nullable field with a converter is refused as a null value, with the blank text as the invalid value |
| CsvProperties.AppendSkips | src/main/java/eu/volsch/stockmountain/extraction/csv/CsvExtractor.java:367-369 | Header rows, extra trailing fields and slots of no field only empty the buffer |
| CsvRoundTrip.AppendStored | src/main/java/eu/volsch/stockmountain/extraction/csv/CsvExtractor.java:365-388 | On a data row a value its slot accepts is appended without error: a declared slot holds the field's conversion of it, any other slot keeps its value, and the buffer is emptied |
| CsvRoundTrip.QuotedValue | src/main/java/eu/volsch/stockmountain/extraction/csv/CsvExtractor.java:231-249 | At the start of a field, a quoted value without line breaks leaves exactly its text in the buffer, the enclosure open with its closing quote pending, and every position advanced by its written length |
| CsvRoundTrip.SeparatorAfterQuote | src/main/java/eu/volsch/stockmountain/extraction/csv/CsvExtractor.java:237-243 | Right after a closing quote the separator stores the value in its slot, empties the buffer and starts the next field at position 0, outside any enclosure |
| CsvRoundTrip.LineFeedAfterQuote | src/main/java/eu/volsch/stockmountain/extraction/csv/CsvExtractor.java:303-311 | Right after a closing quote in the last declared slot or beyond, a line feed ending a line that is not blank stores the value and returns the row, the reader behind the line feed |
| CsvRoundTrip.FieldThenSeparator | src/main/java/eu/volsch/stockmountain/extraction/csv/CsvExtractor.java:231-243 | A quoted value and the separator behind it: the value is stored in its slot and reading goes on at the next field with the counters advanced past both |
| CsvRoundTrip.FieldThenLineFeed | src/main/java/eu/volsch/stockmountain/extraction/csv/CsvExtractor.java:217-311 | A quoted last value and the line feed behind it: the row is read with that value stored and the counters past the line feed |
| CsvRoundTrip.FieldsRead | src/main/java/eu/volsch/stockmountain/extraction/csv/CsvExtractor.java:195-251 | By induction on the values ahead: from the start of a field, quoted values joined by the separator and a line feed are read as the rest of one row, ending in the state that stores them slot by slot |
| CsvRoundTrip.RowEndStateHolds | src/main/java/eu/volsch/stockmountain/extraction/csv/CsvExtractor.java:253-260 | That end state stands behind the line feed, counts the line and the record once, has an empty buffer and `lastCrChar` clear, and its slots hold each value's conversion in turn |
| CsvRoundTrip.RowRoundTrip | src/main/java/eu/volsch/stockmountain/extraction/csv/CsvExtractor.java:195-251 | Round trip of a row: values without line breaks, filling the declared slots and accepted by their fields, written quoted, separated and ended by a line feed, are read as one row; each declared slot holds its field's conversion of the value written for it, other slots keep theirs, one record and one line are counted and the data is not finished |
| CsvRoundTrip.BlankLineAfterQuote | src/main/java/eu/volsch/stockmountain/extraction/csv/CsvExtractor.java:303-307 | Right after the closing quote of a blank first value, a line feed finishes the data and restarts the record |
| CsvRoundTrip.QuotedBlankLine | src/main/java/eu/volsch/stockmountain/extraction/csv/CsvExtractor.java:304-316 | A row of one quoted blank value is a blank line: its line feed finishes the data, nothing is stored and the text stays in the buffer |
| CsvExamples.TestExtractorValid | src/test/java/eu/volsch/stockmountain/extraction/csv/CsvExtractorTest.java:89-95 | The extractor of the tests' fields (ordinals 0, 2 and 3) is well formed, and its table puts each field in the slot of its ordinal |
| CsvExamples.TestMetaData | src/main/java/eu/volsch/stockmountain/extraction/api/SimpleRecordMetaData.java:57-67 | The tests' fields, given in the order `field3, field1, field2`, become the metadata with the fields sorted by ordinal and maximum ordinal 3 |
| CsvExamples.TestExtractorDetermined | src/main/java/eu/volsch/stockmountain/extraction/csv/CsvExtractor.java:107-123 | Any well-formed extractor with the tests' separator, limits and metadata whose table follows the ordinals is the tests' extractor |
| CsvExamples.BuildTestExtractor | src/test/java/eu/volsch/stockmountain/extraction/csv/CsvExtractorTest.java:453-454 | The constructor called as the tests call it, with `,`, the tests' fields, no header rows and `Integer.MAX_VALUE`, builds exactly the extractor the examples use |
| CsvExamples.FirstFieldKept | src/test/java/eu/volsch/stockmountain/extraction/csv/CsvExtractorTest.java:90 | The string converter keeps `abc` |
| CsvExamples.TooFewFields | src/test/java/eu/volsch/stockmountain/extraction/csv/CsvExtractorTest.java:332-335 | `abc,,10` and a line break fail with record 1, line 1, field 3, position 8 and no invalid value |

## Left out

Input, output and runtime plumbing:
- Reading bytes: the `Reader`/`InputStream`, charset decoding and the `IOException` that becomes `ExtractionDataAccessException` are I/O. The input is a `seq<char>` already decoded.
- Java streams: the `Stream`/`Spliterator` plumbing and the consumer passed to `tryAdvance` are Java library glue. `TryAdvance` returns the record instead of passing it to a consumer.
- Concurrency: the thread-safety annotations have no Dafny counterpart.

Simplified or abstracted:
- CsvModel.ReadRowFrom: Java `int` overflow of `lineNo`, `recordNo` and the position counters is not modelled. The counters are unbounded naturals, because overflow needs more than 2^31 characters of input.
- CsvRoundTrip.RowRoundTrip: only values without CR or LF are covered. Inside quotes a CR, alone or before an LF, is read back as one LF, so a value holding a CR does not come back as written. A value holding LFs but no CR does come back as written, but each of its LFs counts a line and resets the line position. The round-trip lemmas track the counters of a single line only, so that case has no lemma; `EnclosedBreaks` states what one enclosed run of line breaks does. A row of one blank value is also excluded, because `readRow` takes it for a blank line that ends the data (`QuotedBlankLine`).
- CsvProperties.QuotedField: text holding an LF is excluded like text holding a CR. The source keeps an enclosed LF that no CR precedes, but as for the row round trip the LF also moves the line counters, which this per-field lemma does not follow.
- CsvModel.ReadRowFrom: the input is a sequence of Unicode scalar values, and a character above U+FFFF counts once in `linePos`, `recordPos` and the `maxRecordsChars` limit. Java's `Reader` delivers it as two UTF-16 code units and counts two. Both units are ordinary data characters, so the values read are the same; only the reported positions and the point where the limit is exceeded can differ.
- DecimalConvertor.Convert: group sizes and positions count a character above U+FFFF once where Java's `char[]` counts two. Such a character is never a digit, so both reject the text with a `ConversionException`, but the message can name a misplaced thousand separator in one and invalid characters in the other.
- Temporal converters: `AbstractStringToTemporalConverter`'s `java.time` formatter is abstracted. It is a table of the texts it accepts and the value each gives, because `DateTimeFormatter` parsing is outside the core. `StringToLocalTimeConverter` adds nothing beyond that.
- Fields.HashCode:
  - `SimpleField`'s lazily cached hash is computed afresh each time. The cache write is invisible to callers, except that a hash of 0 is recomputed.
  - The identity hash of a `Class` object is a parameter.
- Fields.NewField: ordinals are natural numbers. The five-argument constructor's acceptance of a negative ordinal is not modelled, because the other constructor and every use declare ordinals non-negative.
- MetaData.GetField:
  - Every out-of-range index fails with an `IllegalArgumentException`.
  - Which exception the JDK's immutable list throws (and whether the `catch` sees it) depends on the list's size class, and is not modelled.
- MetaData.NewMetaData: the field set is given as a sequence in its iteration order, because a Java `Set` has no order of its own. The lemmas that count fields ask for distinct fields, as a `Set` guarantees.
- JavaText.Trim: characters are Unicode scalar values. Java's UTF-16 surrogate pairs are not told apart, which matters to neither trimming nor `isBlank`, since both test characters below U+10000 only.
- Prices.ToString: the amount is written by a model of `BigDecimal.toString`. Of its scientific-notation branch only the example `1E-7` is proved; the general exponent format has no lemma.

Not modelled at all:
- `Price.hashCode` uses `BigDecimal.doubleValue`, which is floating point.
- Getters that only return a constructor argument are the datatype's own fields. These are the `Price` getters, the `CsvExtractionException` getters and `SimpleImmutableRecord.getMetaData`.
- `DegiroTransactionFields` and the other sources outside the core are not part of this model.

Properties shown only in general form:
- The extractor's worked examples other than the short-row one are not followed character by character. For the `DATA_1` CRLF CRLF `DATA_2` example, `ExtractionErrorsAddressed` gives the line and position of the error; the record number it names has no general lemma. The other examples are covered by the step and run lemmas.
- The decimal convertor's test strings are covered by general lemmas instead of one lemma per literal: `ConvertNumber`, `ConvertRejectsFirstGroup`, `ConvertRejectsGroup`, `ConvertSeparatorError`, `ConvertRejectsSecondComma`, `ConvertRejectsLaterMark` and `ConvertRejectsSecondPoint`.
