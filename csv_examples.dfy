/**
 * A worked example: the extractor of the CSV tests (fields at ordinals 0, 2 and 3, so four
 * slots) reading `abc,,10` and a line break. The row stops at its third field, one short of
 * the four the slots demand, and the error names record 1, line 1, field 3 and position 8.
 */
module CsvExamples {
  import opened Wrappers
  import opened JavaText
  import opened Exceptions
  import opened CsvExceptions
  import opened Types
  import opened Fields
  import opened MetaData
  import opened CsvModel
  import opened CsvProperties
  import opened CsvExtractor
  import Converters
  import DecimalConvertor

  const Field1: Field := Field("testField1", 0, StringType, true, Some(Converters.StringText))
  const Field2: Field := Field("testField2", 2, BigDecimalType, true, Some(Converters.DecimalNumber(DecimalConvertor.DecimalComma)))
  const Field3: Field := Field("testField3", 3, StringType, true, None)

  /** The extractor the tests build with `,`, no header rows and no record limit to speak of. */
  const TestExtractor: Extractor :=
    Extractor(',', 0, 0x7fff_ffff, RecordMetaData([Field1, Field2, Field3], 3), 4,
              [Some(Field1), None, Some(Field2), Some(Field3)])

  /** The test extractor is well formed, and its table puts each field at its ordinal. */
  lemma TestExtractorValid()
    ensures ValidExtractor(TestExtractor)
    ensures forall i :: 0 <= i < 4 ==> TestExtractor.fields[i] == FieldAt(TestExtractor.metaData.fieldList, i)
  {
    var list := TestExtractor.metaData.fieldList;
    assert list[2].ordinal == 3;
    assert MetaData.Valid(TestExtractor.metaData);
    assert ValidSeparator(',');
    assert FieldAt(list, 0) == Some(Field1) by {
      assert list[..2] == [Field1, Field2] && [Field1, Field2][..1] == [Field1];
      assert FieldAt(list, 0) == FieldAt([Field1, Field2], 0) == FieldAt([Field1], 0);
    }
    assert FieldAt(list, 1) == None;
    assert FieldAt(list, 2) == Some(Field2) by {
      assert list[..2] == [Field1, Field2];
    }
  }
  /** The tests' fields, given as `field3, field1, field2`, are sorted into ordinal order; the maximum ordinal is 3. */
  lemma TestMetaData()
    ensures NewMetaData([Field3, Field1, Field2]) == Ok(TestExtractor.metaData)
  {
    TestFieldsSorted();
    TestMaxOrdinal();
  }

  /** Insertion sort puts `field3, field1, field2` into ordinal order. */
  lemma TestFieldsSorted()
    ensures SortByOrdinal([Field3, Field1, Field2]) == [Field1, Field2, Field3]
  {
    assert [Field3, Field1, Field2][1..] == [Field1, Field2] && [Field1, Field2][1..] == [Field2] && [Field2][1..] == [];
    assert SortByOrdinal([Field2]) == [Field2];
    assert SortByOrdinal([Field1, Field2]) == [Field1, Field2];
    assert Insert(Field3, [Field2]) == [Field2, Field3];
    assert Insert(Field3, [Field1, Field2]) == [Field1] + [Field2, Field3];
  }

  /** The largest ordinal of the sorted fields is 3. */
  lemma TestMaxOrdinal()
    ensures MaxOrdinal([Field1, Field2, Field3]) == 3
  {
    assert [Field1, Field2, Field3][1..] == [Field2, Field3] && [Field2, Field3][1..] == [Field3];
  }

  /** An extractor with the test extractor's separator, limits and metadata, whose table follows the ordinals, is it. */
  lemma TestExtractorDetermined(e: Extractor)
    requires ValidExtractor(e) && e.fieldSeparator == ',' && e.skipCount == 0 && e.maxRecordsChars == 0x7fff_ffff
    requires e.metaData == TestExtractor.metaData
    requires forall i :: 0 <= i < e.fieldCount ==> e.fields[i] == FieldAt(e.metaData.fieldList, i)
    ensures e == TestExtractor
  {
    TestExtractorValid();
    assert e.fieldCount == 4;
    assert e.fields == TestExtractor.fields;
  }

  /** The tests' fields carry no temporal converter, so each is well formed. */
  lemma TestFieldsValid()
    ensures forall k :: 0 <= k < |[Field3, Field1, Field2]| ==> Fields.Valid([Field3, Field1, Field2][k])
  {
  }

  /** The constructor, given `,`, the tests' fields, no header rows and `Integer.MAX_VALUE`, builds the test extractor. */
  method BuildTestExtractor() returns (r: Result<Extractor, Exception>)
    ensures r == Ok(TestExtractor)
  {
    TestFieldsValid();
    TestMetaData();
    r := NewExtractor(',', [Field3, Field1, Field2], 0, 0x7fff_ffff);
    assert ValidSeparator(',');
    TestExtractorDetermined(r.value);
  }


  const ShortRow: string := "abc,,10\n"

  /** The state of the short row after `n` characters, with `v` in the buffer and `values` in the slots. */
  function At(n: nat, v: string, values: seq<Value>): Scanner {
    Scanner(n, false, false, false, 0, 1, 1, v, values)
  }

  /** The first field of the short row is `abc`, which the string converter keeps. */
  lemma FirstFieldKept()
    ensures Fields.Convert(Field1, Str("abc")) == Ok(Str("abc"))
  {
    var t := Trim("abc");
    assert LeadingTrimmable("abc") == 0;
    assert !IsTrimmable("abc"[2]);
    assert t == "abc";
  }

  /** What the short row needs of an extractor: the test extractor's separator, slots and table. */
  predicate ShortRowReady(x: Extractor) {
    && ValidExtractor(x) && x.fieldSeparator == ',' && x.fieldCount == 4 && x.maxRecordsChars >= 8
    && x.fields[0] == Some(Field1) && x.fields[1] == None
  }

  /** `abc`: the first character counts line 1 and record 1, and the text fills the buffer. */
  lemma {:induction false} ShortRowText(x: Extractor, nulls: seq<Value>)
    requires ShortRowReady(x) && |nulls| == 4
    ensures ReadRowFrom(x, ShortRow, true, Scanner(0, false, false, false, 0, 0, 0, "", nulls), RowStart)
            == ReadRowFrom(x, ShortRow, true, At(3, "abc", nulls), Row(false, false, 3, 3, 0, 3))
  {
    var input := ShortRow;
    var s0 := Scanner(0, false, false, false, 0, 0, 0, "", nulls);
    var s1 := Consumed(s0, RowStart).(value := s0.value + [input[0]], lastCrChar := false);
    var row1 := Moved(RowStart, 1).(lastEncloseChar := false);
    assert s1 == At(1, "a", nulls) && row1 == Row(false, false, 1, 1, 0, 1);
    assert ReadRowFrom(x, input, true, s0, RowStart) == ReadRowFrom(x, input, true, s1, row1) by {
      DataStep(x, input, true, s0, RowStart);
    }
    assert ReadRowFrom(x, input, true, At(1, "a", nulls), Row(false, false, 1, 1, 0, 1))
           == ReadRowFrom(x, input, true, At(3, "abc", nulls), Row(false, false, 3, 3, 0, 3)) by {
      assert AfterPlain(input, At(1, "a", nulls), 3) == At(3, "abc", nulls) by {
        assert input[1..3] == "bc";
      }
      PlainText(x, input, true, At(1, "a", nulls), Row(false, false, 1, 1, 0, 1), 3);
    }
  }

  /** Appending `abc` stores it in the slot of the first field and empties the buffer. */
  lemma FirstAppend(x: Extractor, nulls: seq<Value>)
    requires ShortRowReady(x) && |nulls| == 4
    ensures AppendFieldValue(x, true, At(4, "abc", nulls), 4, 0) == Ok(At(4, "", nulls[0 := Str("abc")]))
  {
    FirstFieldKept();
  }

  /** The first `,`: `abc` goes to the slot of the first field. */
  lemma {:induction false} FirstSeparator(x: Extractor, nulls: seq<Value>)
    requires ShortRowReady(x) && |nulls| == 4
    ensures ReadRowFrom(x, ShortRow, true, At(3, "abc", nulls), Row(false, false, 3, 3, 0, 3))
            == ReadRowFrom(x, ShortRow, true, At(4, "", nulls[0 := Str("abc")]), Row(false, false, 4, 4, 1, 0))
  {
    FirstAppend(x, nulls);
    assert Consumed(At(3, "abc", nulls), Row(false, false, 3, 3, 0, 3)) == At(4, "abc", nulls);
    SeparatorStep(x, ShortRow, true, At(3, "abc", nulls), Row(false, false, 3, 3, 0, 3));
  }

  /** The second `,`: the slot of no field takes nothing. */
  lemma {:induction false} SecondSeparator(x: Extractor, values: seq<Value>)
    requires ShortRowReady(x) && |values| == 4
    ensures ReadRowFrom(x, ShortRow, true, At(4, "", values), Row(false, false, 4, 4, 1, 0))
            == ReadRowFrom(x, ShortRow, true, At(5, "", values), Row(false, false, 5, 5, 2, 0))
  {
    assert Consumed(At(4, "", values), Row(false, false, 4, 4, 1, 0)) == At(5, "", values);
    AppendSkips(x, true, At(5, "", values), 5, 1);
    SeparatorStep(x, ShortRow, true, At(4, "", values), Row(false, false, 4, 4, 1, 0));
  }

  /** `10` and the line break: the row ends in its third field. */
  lemma {:induction false} ShortRowEnd(x: Extractor, values: seq<Value>)
    requires ShortRowReady(x) && |values| == 4
    ensures var s8 := At(8, "10", values);
            ReadRowFrom(x, ShortRow, true, At(5, "", values), Row(false, false, 5, 5, 2, 0))
            == ReadResult(RowFailed(Failure(s8, 2, 8, None, FieldCountMessage(x, 2))), s8)
  {
    var input := ShortRow;
    assert ReadRowFrom(x, input, true, At(5, "", values), Row(false, false, 5, 5, 2, 0))
           == ReadRowFrom(x, input, true, At(7, "10", values), Row(false, false, 7, 7, 2, 2)) by {
      assert AfterPlain(input, At(5, "", values), 7) == At(7, "10", values) by {
        assert input[5..7] == "10";
      }
      PlainText(x, input, true, At(5, "", values), Row(false, false, 5, 5, 2, 0), 7);
    }
    RowEnd(x, input, true, At(7, "10", values), Row(false, false, 7, 7, 2, 2));
  }

  /**
   * `abc,,10` and a line break: the row is one field short, reported at record 1, line 1,
   * field 3 and position 8, with no invalid value.
   */
  lemma TooFewFields()
    ensures ValidExtractor(TestExtractor)
    ensures var e := CsvExtraction(CsvExtractionException(1, 1, 3, 8, None, FieldCountMessage(TestExtractor, 2)));
            TryAdvance(TestExtractor, ShortRow, Initial(TestExtractor)).advance == Failed(e)
  {
    TestExtractorValid();
    var x := TestExtractor;
    var nulls := Initial(x).values;
    assert ShortRowReady(x);
    ShortRowText(x, nulls);
    FirstSeparator(x, nulls);
    SecondSeparator(x, nulls[0 := Str("abc")]);
    ShortRowEnd(x, nulls[0 := Str("abc")]);
    assert Initial(x).(value := []) == Initial(x) == Scanner(0, false, false, false, 0, 0, 0, "", nulls);
  }
}
