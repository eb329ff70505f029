/**
 * What the CSV extractor promises, proved about the functions of `CsvModel`: the table of
 * fields, the field count of a row, quoting, line breaks, blank lines, the record limit, the
 * line and position an error reports, and which rows are converted.
 */
module CsvProperties {
  import opened Wrappers
  import opened JavaText
  import opened Exceptions
  import opened CsvExceptions
  import opened Types
  import opened Fields
  import opened MetaData
  import opened CsvModel
  import Converters

  // ---------------------------------------------------------------------------------------
  // Error addressing
  // ---------------------------------------------------------------------------------------

  /** The number of line-break characters (CR or LF) in `p`. */
  function LineBreaks(p: seq<char>): nat {
    if p == [] then 0 else LineBreaks(p[..|p| - 1]) + if IsEol(p[|p| - 1]) then 1 else 0
  }

  /** The number of characters of `p` after its last line break. */
  function Column(p: seq<char>): nat {
    if p == [] || IsEol(p[|p| - 1]) then 0 else Column(p[..|p| - 1]) + 1
  }

  /** The number of the line the last character of `p` is on, or 0 when `p` ends a line. */
  function LineOf(p: seq<char>): nat {
    LineBreaks(p) + if Column(p) > 0 then 1 else 0
  }

  /**
   * The counters of `readRow` agree with the characters read so far: `linePos` counts the
   * characters since the last line break, and `lineNo` the lines begun.
   */
  predicate Addressed(input: seq<char>, s: Scanner, row: Row) {
    s.pos <= |input| && row.linePos == Column(input[..s.pos]) && s.lineNo == LineOf(input[..s.pos])
  }

  /**
   * A `CsvExtractionException` raised after `p` characters names where it arose: at the end
   * of the input, the last line and its length; otherwise the character at index `p - 1`,
   * on line one more than the line breaks before it, at one more than the characters since
   * the last of them.
   */
  predicate ReportedAt(input: seq<char>, p: nat, eof: bool, e: Exception) {
    e.CsvExtraction? ==>
      if eof then e.csv.lineNo == LineOf(input) && e.csv.linePos == Column(input)
      else 0 < p <= |input| && e.csv.lineNo == LineBreaks(input[..p - 1]) + 1
           && e.csv.linePos == Column(input[..p - 1]) + 1
  }

  /** An exception that is a `CsvExtractionException` names line `lineNo` and position `linePos`. */
  predicate RaisedAt(e: Exception, lineNo: nat, linePos: nat) {
    e.CsvExtraction? ==> e.csv.lineNo == lineNo && e.csv.linePos == linePos
  }

  /** A field's conversion fails only with a conversion, cast or number-format error. */
  lemma ConvertNeverCsv(f: Field, v: Value)
    requires Fields.Valid(f)
    ensures Fields.Convert(f, v).Err? ==> !Fields.Convert(f, v).error.CsvExtraction?
  {
    if f.converter.Some? {
      var c := f.converter.value;
      if v.Str? && Trim(v.s) != [] {
        assert Converters.Convert(c, Some(v.s)) == Converters.DoConvert(c, Trim(v.s));
      }
    }
  }

  /** `appendFieldValue` raises its exceptions at the line and position it is given. */
  lemma AppendRaisedAt(x: Extractor, data: bool, s: Scanner, linePos: nat, fieldIndex: nat)
    requires ValidExtractor(x) && Fits(x, s)
    ensures var r := AppendFieldValue(x, data, s, linePos, fieldIndex);
            r.Err? ==> RaisedAt(r.error, s.lineNo, linePos)
  {
    if data && fieldIndex < x.fieldCount && x.fields[fieldIndex].Some? {
      ConvertNeverCsv(x.fields[fieldIndex].value, Str(s.value));
    }
  }

  /**
   * One pass of the loop, once the counters are advanced: a line break leaves `linePos` at
   * zero, any other character keeps it, the line number does not change, and an exception
   * names the line and position of the character.
   */
  lemma DispatchAddressed(x: Extractor, data: bool, s: Scanner, row: Row, c: char)
    requires ValidExtractor(x) && Fits(x, s)
    ensures var t := Dispatch(x, data, s, row, c);
            && t.s.lineNo == s.lineNo
            && (t.action.Proceed? ==> t.action.row.linePos == if IsEol(c) then 0 else row.linePos)
            && (t.action.Stop? ==> RaisedAt(t.action.ex, s.lineNo, row.linePos))
  {
    if IsEol(c) {
      var s' := s.(lastCrChar := c == CR);
      AppendRaisedAt(x, data, s', row.linePos, row.fieldIndex);
    } else if !IsEncloseDelimiter(row.enclosed, row.fieldPos, c) && IsFieldSeparator(x, row.enclosed, row.lastEncloseChar, c) {
      AppendRaisedAt(x, data, s, row.linePos, row.fieldIndex);
    }
  }

  /** The character after `p` extends the counts of `p`. */
  lemma ColumnSnoc(input: seq<char>, i: nat)
    requires i < |input|
    ensures input[..i + 1][..i] == input[..i]
    ensures Column(input[..i + 1]) == if IsEol(input[i]) then 0 else Column(input[..i]) + 1
    ensures LineBreaks(input[..i + 1]) == LineBreaks(input[..i]) + if IsEol(input[i]) then 1 else 0
  {
    assert input[..i + 1][..i] == input[..i];
  }

  /**
   * One pass of the loop: `incLineNo` gives the line number, a line break leaves `linePos` at
   * zero, any other character advances it, and an exception names the line and the advanced
   * position.
   */
  lemma StepCounters(x: Extractor, data: bool, s: Scanner, row: Row, c: char)
    requires ValidExtractor(x) && Fits(x, s)
    ensures var t := Step(x, data, s, row, c);
            var lineNo := IncLineNo(s, row.recordPos, row.linePos).lineNo;
            && t.s.lineNo == lineNo
            && (t.action.Proceed? ==> t.action.row.linePos == if IsEol(c) then 0 else row.linePos + 1)
            && (t.action.Stop? ==> RaisedAt(t.action.ex, lineNo, row.linePos + 1))
  {
    var moved := row.(linePos := row.linePos + 1, fieldPos := row.fieldPos + 1, recordPos := row.recordPos + 1);
    if moved.recordPos <= x.maxRecordsChars {
      DispatchAddressed(x, data, IncLineNo(s, row.recordPos, row.linePos), moved, c);
    }
  }

  /**
   * One pass of the loop counts a record exactly when it reads the first character of a row,
   * or the first after a reset: both `linePos` and `recordPos` are still zero.
   */
  lemma StepCountsRecord(x: Extractor, data: bool, s: Scanner, row: Row, c: char)
    requires ValidExtractor(x) && Fits(x, s)
    ensures Step(x, data, s, row, c).s.recordNo == s.recordNo + (if row.linePos == 0 && row.recordPos == 0 then 1 else 0)
  {
    if row.recordPos + 1 <= x.maxRecordsChars {
      DispatchKeeps(x, data, IncLineNo(s, row.recordPos, row.linePos), Moved(row, 1), c);
    }
  }

  /** Counters that advance as `readRow`'s do over the next character stay in step with the input. */
  lemma CountersAdvance(input: seq<char>, s: Scanner, row: Row, t: StepResult)
    requires Addressed(input, s, row) && s.pos < |input| && t.s.pos == s.pos + 1
    requires t.s.lineNo == IncLineNo(s, row.recordPos, row.linePos).lineNo
    requires t.action.Proceed? ==> t.action.row.linePos == if IsEol(input[s.pos]) then 0 else row.linePos + 1
    requires t.action.Stop? ==> RaisedAt(t.action.ex, t.s.lineNo, row.linePos + 1)
    ensures t.action.Proceed? ==> Addressed(input, t.s, t.action.row)
    ensures t.action.Stop? ==> ReportedAt(input, t.s.pos, false, t.action.ex)
  {
    ColumnSnoc(input, s.pos);
  }

  /** `handleEof` raises its exceptions at the line and position it is given. */
  lemma EofRaisedAt(x: Extractor, data: bool, s: Scanner, row: Row)
    requires ValidExtractor(x) && Fits(x, s)
    ensures var r := HandleEof(x, data, s, row.enclosed, row.lastEncloseChar, row.linePos, row.fieldIndex);
            r.outcome.RowFailed? ==> RaisedAt(r.outcome.ex, s.lineNo, row.linePos)
  {
    AppendRaisedAt(x, data, s, row.linePos, row.fieldIndex);
  }

  /**
   * Whatever `readRow` raises from a loop state whose counters agree with the input names
   * the character it arose at, or the end of the input: the line is one more than the line
   * breaks before it, inside enclosures and both halves of a CRLF included, and the position
   * counts from 1 after the last line break.
   */
  lemma {:induction false} ErrorsAddressed(x: Extractor, input: seq<char>, data: bool, s: Scanner, row: Row)
    requires ValidExtractor(x) && Fits(x, s) && Reading(input, s) && Addressed(input, s, row)
    ensures var r := ReadRowFrom(x, input, data, s, row);
            r.outcome.RowFailed? ==> ReportedAt(input, r.s.pos, r.s.eof, r.outcome.ex)
    decreases Remaining(input, s)
  {
    if s.eof || s.pos == |input| {
      ReadRowFromEnd(x, input, data, s, row);
      EofRaisedAt(x, data, s.(eof := true), row);
      assert input[..s.pos] == input;
    } else {
      var t := Step(x, data, s.(pos := s.pos + 1), row, input[s.pos]);
      ReadRowFromChar(x, input, data, s, row, t);
      StepCounters(x, data, s.(pos := s.pos + 1), row, input[s.pos]);
      CountersAdvance(input, s, row, t);
      if t.action.Proceed? {
        ErrorsAddressed(x, input, data, t.s, t.action.row);
      }
    }
  }

  /** A pass of the loop returns the row only at a line break. */
  lemma StepDoneAtBreak(x: Extractor, data: bool, s: Scanner, row: Row, c: char)
    requires ValidExtractor(x) && Fits(x, s)
    ensures Step(x, data, s, row, c).action.RowDone? ==> IsEol(c)
  {
    var moved := row.(linePos := row.linePos + 1, fieldPos := row.fieldPos + 1, recordPos := row.recordPos + 1);
    if moved.recordPos <= x.maxRecordsChars && !IsEol(c) {
      var s1 := IncLineNo(s, row.recordPos, row.linePos);
      if IsEncloseDelimiter(moved.enclosed, moved.fieldPos, c) {
        assert Dispatch(x, data, s1, moved, c) == Quote(s1, moved);
      } else if IsFieldSeparator(x, moved.enclosed, moved.lastEncloseChar, c) {
        assert Dispatch(x, data, s1, moved, c) == Separator(x, data, s1, moved);
      } else {
        assert Dispatch(x, data, s1, moved, c) == DataChar(s1, moved, c);
      }
    }
  }

  /** A row that ends at a line break leaves the counters in step with the input at a row start. */
  lemma RowEndAddressed(input: seq<char>, s: Scanner, row: Row, t: Scanner)
    requires Addressed(input, s, row) && s.pos < |input| && IsEol(input[s.pos]) && t.pos == s.pos + 1
    requires t.lineNo == IncLineNo(s, row.recordPos, row.linePos).lineNo
    ensures Addressed(input, t, RowStart)
  {
    ColumnSnoc(input, s.pos);
  }

  /**
   * Between two rows the counters agree with the input, as at the start of a row, unless the
   * reader has reported the end already.
   */
  predicate BetweenRows(input: seq<char>, s: Scanner) {
    Reading(input, s) && (s.eof || Addressed(input, s, RowStart))
  }

  /**
   * From a loop state whose counters agree with the input, `readRow` returns a row only with
   * the reader at the end or just behind a line break, with the counters agreeing again, and
   * it returns no row only at the end.
   */
  lemma {:induction false} RowReadAddressed(x: Extractor, input: seq<char>, data: bool, s: Scanner, row: Row)
    requires ValidExtractor(x) && Fits(x, s) && Reading(input, s) && Addressed(input, s, row)
    ensures var r := ReadRowFrom(x, input, data, s, row);
            && (r.outcome.RowRead? ==> BetweenRows(input, r.s))
            && (r.outcome.NoRow? ==> r.s.eof)
    decreases Remaining(input, s)
  {
    if s.eof || s.pos == |input| {
      ReadRowFromEnd(x, input, data, s, row);
    } else {
      var t := Step(x, data, s.(pos := s.pos + 1), row, input[s.pos]);
      ReadRowFromChar(x, input, data, s, row, t);
      StepCounters(x, data, s.(pos := s.pos + 1), row, input[s.pos]);
      if t.action.Proceed? {
        CountersAdvance(input, s, row, t);
        RowReadAddressed(x, input, data, t.s, t.action.row);
      } else if t.action.RowDone? {
        StepDoneAtBreak(x, data, s.(pos := s.pos + 1), row, input[s.pos]);
        RowEndAddressed(input, s, row, t.s);
      }
    }
  }

  /**
   * `readRow` called between two rows: an error names where it arose, and a row read or the
   * end reached leaves the reader between two rows again.
   */
  lemma ReadRowAddressed(x: Extractor, input: seq<char>, data: bool, s: Scanner)
    requires ValidExtractor(x) && Fits(x, s) && BetweenRows(input, s)
    ensures var r := ReadRow(x, input, data, s);
            && (r.outcome.RowFailed? ==> ReportedAt(input, r.s.pos, r.s.eof, r.outcome.ex))
            && (!r.outcome.RowFailed? ==> BetweenRows(input, r.s))
  {
    if s.eof {
      ReadRowFromEnd(x, input, data, s.(value := []), RowStart);
    } else {
      ErrorsAddressed(x, input, data, s.(value := []), RowStart);
      RowReadAddressed(x, input, data, s.(value := []), RowStart);
    }
  }

  /** `skipRows` called between two rows: an error names where it arose, and otherwise the reader is between two rows. */
  lemma {:induction false} SkipRowsAddressed(x: Extractor, input: seq<char>, s: Scanner)
    requires ValidExtractor(x) && Fits(x, s) && BetweenRows(input, s)
    ensures var k := SkipRows(x, input, s);
            && (k.outcome.RowFailed? ==> ReportedAt(input, k.s.pos, k.s.eof, k.outcome.ex))
            && (!k.outcome.RowFailed? ==> BetweenRows(input, k.s))
    decreases x.skipCount - s.skippedCount
  {
    if s.skippedCount < x.skipCount {
      var r := ReadRow(x, input, false, s);
      ReadRowAddressed(x, input, false, s);
      SkipRowsStep(x, input, s, r.outcome, r.s);
      if r.outcome.RowRead? {
        SkipRowsAddressed(x, input, r.s.(skippedCount := r.s.skippedCount + 1));
      }
    }
  }

  /** `tryAdvance` called between two rows: an error names where it arose, and otherwise the reader is between two rows. */
  lemma TryAdvanceAddressed(x: Extractor, input: seq<char>, s: Scanner)
    requires ValidExtractor(x) && Fits(x, s) && BetweenRows(input, s)
    ensures var a := TryAdvance(x, input, s);
            && (a.advance.Failed? ==> ReportedAt(input, a.s.pos, a.s.eof, a.advance.ex))
            && (!a.advance.Failed? ==> BetweenRows(input, a.s))
  {
    if s.skippedCount < x.skipCount {
      var k := SkipRows(x, input, s);
      SkipRowsAddressed(x, input, s);
      if k.outcome.RowRead? {
        ReadRowAddressed(x, input, true, k.s);
      }
    } else {
      ReadRowAddressed(x, input, true, s);
    }
  }

  /** Every state a stream reaches lies between two rows, the fresh spliterator's included. */
  lemma {:induction false} ReachedBetweenRows(x: Extractor, input: seq<char>, n: nat)
    requires ValidExtractor(x)
    ensures Reached(x, input, n).Some? ==> BetweenRows(input, Reached(x, input, n).value)
  {
    if n == 0 {
      assert input[..0] == [];
    } else {
      ReachedBetweenRows(x, input, n - 1);
      if Reached(x, input, n - 1).Some? {
        TryAdvanceAddressed(x, input, Reached(x, input, n - 1).value);
      }
    }
  }

  /**
   * Whatever CSV error a stream over `input` raises, in its first record or any later one,
   * names the character at fault: the line is 1 + the line breaks before it and the position
   * counts from 1 after the last of them; at the end of the input, the last line and its length.
   */
  lemma {:induction false} ExtractionErrorsAddressed(x: Extractor, input: seq<char>, n: nat)
    requires ValidExtractor(x)
    ensures Reached(x, input, n).Some? ==>
              var a := TryAdvance(x, input, Reached(x, input, n).value);
              a.advance.Failed? ==> ReportedAt(input, a.s.pos, a.s.eof, a.advance.ex)
  {
    ReachedBetweenRows(x, input, n);
    if Reached(x, input, n).Some? {
      TryAdvanceAddressed(x, input, Reached(x, input, n).value);
    }
  }

  // ---------------------------------------------------------------------------------------
  // One character of readRow
  // ---------------------------------------------------------------------------------------

  /** The loop's positions advanced by `n` characters. */
  function Moved(row: Row, n: nat): Row {
    row.(linePos := row.linePos + n, fieldPos := row.fieldPos + n, recordPos := row.recordPos + n)
  }

  /** The reader has delivered the next character, and `incLineNo` has counted it. */
  function Consumed(s: Scanner, row: Row): Scanner {
    IncLineNo(s.(pos := s.pos + 1), row.recordPos, row.linePos)
  }

  /** The loop is about to read a character, and the record limit lets it. */
  predicate NextFits(x: Extractor, input: seq<char>, s: Scanner, row: Row) {
    ValidExtractor(x) && Fits(x, s) && Reading(input, s) && !s.eof && s.pos < |input|
    && row.recordPos < x.maxRecordsChars
  }

  /**
   * A character that is neither a line break, nor a quote that opens or sits in an
   * enclosure, nor a separator, is appended to the value; right after a closing quote it is
   * an error instead.
   */
  lemma {:induction false} DataStep(x: Extractor, input: seq<char>, data: bool, s: Scanner, row: Row)
    requires NextFits(x, input, s, row)
    requires var c := input[s.pos];
             !IsEol(c) && !IsEncloseDelimiter(row.enclosed, row.fieldPos + 1, c)
             && !IsFieldSeparator(x, row.enclosed, row.lastEncloseChar, c)
    ensures !(row.enclosed && row.lastEncloseChar) ==>
              ReadRowFrom(x, input, data, s, row)
              == ReadRowFrom(x, input, data, Consumed(s, row).(value := s.value + [input[s.pos]], lastCrChar := false),
                             Moved(row, 1).(lastEncloseChar := false))
    ensures row.enclosed && row.lastEncloseChar ==>
              ReadRowFrom(x, input, data, s, row)
              == ReadResult(RowFailed(Failure(Consumed(s, row), row.fieldIndex, row.linePos + 1, None, NotEnclosedMessage)),
                            Consumed(s, row))
  {
    var t := Step(x, data, s.(pos := s.pos + 1), row, input[s.pos]);
    DataCharStep(x, data, s.(pos := s.pos + 1), row, input[s.pos]);
    ReadRowFromChar(x, input, data, s, row, t);
  }

  lemma DataCharStep(x: Extractor, data: bool, s: Scanner, row: Row, c: char)
    requires ValidExtractor(x) && Fits(x, s) && row.recordPos < x.maxRecordsChars
    requires !IsEol(c) && !IsEncloseDelimiter(row.enclosed, row.fieldPos + 1, c)
             && !IsFieldSeparator(x, row.enclosed, row.lastEncloseChar, c)
    ensures var s1 := IncLineNo(s, row.recordPos, row.linePos);
            Step(x, data, s, row, c)
            == if row.enclosed && row.lastEncloseChar
               then StepResult(Stop(Failure(s1, row.fieldIndex, row.linePos + 1, None, NotEnclosedMessage)), s1)
               else StepResult(Proceed(Moved(row, 1).(lastEncloseChar := false)), s1.(value := s.value + [c], lastCrChar := false))
  {
  }

  /**
   * A quote at the first position of a field opens an enclosure and adds nothing; inside an
   * enclosure a quote is held back when none is pending, and a second one adds one literal
   * quote.
   */
  lemma {:induction false} QuoteStep(x: Extractor, input: seq<char>, data: bool, s: Scanner, row: Row)
    requires NextFits(x, input, s, row)
    requires input[s.pos] == Enclose && (row.enclosed || row.fieldPos == 0)
    ensures var s1 := Consumed(s, row).(lastCrChar := false);
            && (row.fieldPos == 0 ==>
                  ReadRowFrom(x, input, data, s, row)
                  == ReadRowFrom(x, input, data, s1, Moved(row, 1).(enclosed := true, lastEncloseChar := false)))
            && (row.fieldPos > 0 && !row.lastEncloseChar ==>
                  ReadRowFrom(x, input, data, s, row)
                  == ReadRowFrom(x, input, data, s1, Moved(row, 1).(lastEncloseChar := true)))
            && (row.fieldPos > 0 && row.lastEncloseChar ==>
                  ReadRowFrom(x, input, data, s, row)
                  == ReadRowFrom(x, input, data, s1.(value := s.value + [Enclose]), Moved(row, 1).(lastEncloseChar := false)))
  {
    var t := Step(x, data, s.(pos := s.pos + 1), row, input[s.pos]);
    QuoteCharStep(x, data, s.(pos := s.pos + 1), row, input[s.pos]);
    ReadRowFromChar(x, input, data, s, row, t);
  }

  /** A quote at the first position of a field opens an enclosure (the first case of `QuoteStep`). */
  lemma {:induction false} OpeningQuote(x: Extractor, input: seq<char>, data: bool, s: Scanner, row: Row)
    requires NextFits(x, input, s, row) && input[s.pos] == Enclose && row.fieldPos == 0
    ensures ReadRowFrom(x, input, data, s, row)
            == ReadRowFrom(x, input, data, Consumed(s, row).(lastCrChar := false),
                           Moved(row, 1).(enclosed := true, lastEncloseChar := false))
  {
    var t := Step(x, data, s.(pos := s.pos + 1), row, input[s.pos]);
    QuoteCharStep(x, data, s.(pos := s.pos + 1), row, input[s.pos]);
    ReadRowFromChar(x, input, data, s, row, t);
  }

  /** Inside an enclosure a quote with none pending is held back (the second case of `QuoteStep`). */
  lemma {:induction false} PendingQuote(x: Extractor, input: seq<char>, data: bool, s: Scanner, row: Row)
    requires NextFits(x, input, s, row) && input[s.pos] == Enclose
    requires row.enclosed && row.fieldPos > 0 && !row.lastEncloseChar
    ensures ReadRowFrom(x, input, data, s, row)
            == ReadRowFrom(x, input, data, Consumed(s, row).(lastCrChar := false), Moved(row, 1).(lastEncloseChar := true))
  {
    var t := Step(x, data, s.(pos := s.pos + 1), row, input[s.pos]);
    QuoteCharStep(x, data, s.(pos := s.pos + 1), row, input[s.pos]);
    ReadRowFromChar(x, input, data, s, row, t);
  }

  lemma QuoteCharStep(x: Extractor, data: bool, s: Scanner, row: Row, c: char)
    requires ValidExtractor(x) && Fits(x, s) && row.recordPos < x.maxRecordsChars
    requires c == Enclose && (row.enclosed || row.fieldPos == 0)
    ensures var s1 := IncLineNo(s, row.recordPos, row.linePos).(lastCrChar := false);
            Step(x, data, s, row, c)
            == if row.fieldPos == 0 then StepResult(Proceed(Moved(row, 1).(enclosed := true, lastEncloseChar := false)), s1)
               else if !row.lastEncloseChar then StepResult(Proceed(Moved(row, 1).(lastEncloseChar := true)), s1)
               else StepResult(Proceed(Moved(row, 1).(lastEncloseChar := false)), s1.(value := s.value + [Enclose]))
  {
  }

  /**
   * A separator outside an enclosure, or right after its closing quote, appends the field
   * and starts the next one; a failed conversion ends the row with its exception.
   */
  lemma SeparatorStep(x: Extractor, input: seq<char>, data: bool, s: Scanner, row: Row)
    requires NextFits(x, input, s, row)
    requires input[s.pos] == x.fieldSeparator && (!row.enclosed || row.lastEncloseChar)
    ensures var s1 := Consumed(s, row);
            match AppendFieldValue(x, data, s1, row.linePos + 1, row.fieldIndex)
            case Err(e) => ReadRowFrom(x, input, data, s, row) == ReadResult(RowFailed(e), s1)
            case Ok(s2) =>
              ReadRowFrom(x, input, data, s, row)
              == ReadRowFrom(x, input, data, s2.(lastCrChar := false),
                             Row(false, false, row.recordPos + 1, row.linePos + 1, row.fieldIndex + 1, 0))
  {
    var t := Step(x, data, s.(pos := s.pos + 1), row, input[s.pos]);
    assert t == Separator(x, data, Consumed(s, row), Moved(row, 1));
    match AppendFieldValue(x, data, Consumed(s, row), row.linePos + 1, row.fieldIndex)
    case Err(e) =>
      assert t.action == Stop(e);
      ReadRowFromChar(x, input, data, s, row, t);
    case Ok(s2) =>
      assert t.action.Proceed? && t.s == s2.(lastCrChar := false);
      ReadRowFromChar(x, input, data, s, row, t);
  }

  /** A character over the record limit is refused before it is looked at, with no invalid value. */
  lemma {:induction false} RecordLimit(x: Extractor, input: seq<char>, data: bool, s: Scanner, row: Row)
    requires ValidExtractor(x) && Fits(x, s) && Reading(input, s) && !s.eof && s.pos < |input|
    requires row.recordPos >= x.maxRecordsChars
    ensures ReadRowFrom(x, input, data, s, row)
            == ReadResult(RowFailed(Failure(Consumed(s, row), row.fieldIndex, row.linePos + 1, None, ExceedsMessage(x))),
                          Consumed(s, row))
  {
    var t := Step(x, data, s.(pos := s.pos + 1), row, input[s.pos]);
    LimitStep(x, data, s.(pos := s.pos + 1), row, input[s.pos]);
    ReadRowFromChar(x, input, data, s, row, t);
  }

  lemma LimitStep(x: Extractor, data: bool, s: Scanner, row: Row, c: char)
    requires ValidExtractor(x) && Fits(x, s) && row.recordPos >= x.maxRecordsChars
    ensures var s1 := IncLineNo(s, row.recordPos, row.linePos);
            Step(x, data, s, row, c)
            == StepResult(Stop(Failure(s1, row.fieldIndex, row.linePos + 1, None, ExceedsMessage(x))), s1)
  {
  }

  // ---------------------------------------------------------------------------------------
  // Line breaks
  // ---------------------------------------------------------------------------------------

  /**
   * Inside an enclosure a line break adds `\n` to the value, except an LF right after a CR,
   * and the row goes on at the start of a new line.
   */
  lemma EnclosedBreakStep(x: Extractor, input: seq<char>, data: bool, s: Scanner, row: Row)
    requires NextFits(x, input, s, row)
    requires IsEol(input[s.pos]) && row.enclosed && !row.lastEncloseChar
    ensures var c := input[s.pos];
            ReadRowFrom(x, input, data, s, row)
            == ReadRowFrom(x, input, data,
                           Consumed(s, row).(value := if !s.lastCrChar || c == CR then s.value + [NL] else s.value,
                                             lastCrChar := c == CR),
                           Moved(row, 1).(linePos := 0))
  {
    var t := Step(x, data, s.(pos := s.pos + 1), row, input[s.pos]);
    EnclosedBreakCharStep(x, data, s.(pos := s.pos + 1), row, input[s.pos]);
    ReadRowFromChar(x, input, data, s, row, t);
  }

  lemma EnclosedBreakCharStep(x: Extractor, data: bool, s: Scanner, row: Row, c: char)
    requires ValidExtractor(x) && Fits(x, s) && row.recordPos < x.maxRecordsChars
    requires IsEol(c) && row.enclosed && !row.lastEncloseChar
    ensures Step(x, data, s, row, c)
            == StepResult(Proceed(Moved(row, 1).(linePos := 0)),
                          IncLineNo(s, row.recordPos, row.linePos).(
                            value := if !s.lastCrChar || c == CR then s.value + [NL] else s.value,
                            lastCrChar := c == CR))
  {
  }

  /**
   * What the line breaks `input[i..j]` add to an enclosed value when `lastCr` says whether a
   * CR came just before: one `\n` for each CR, and one for each LF not right after a CR.
   */
  function Normalised(input: seq<char>, i: nat, j: nat, lastCr: bool): string
    requires i <= j <= |input|
    decreases j - i
  {
    if i == j then []
    else (if input[i] == CR || !lastCr then [NL] else []) + Normalised(input, i + 1, j, input[i] == CR)
  }

  /** CR, LF and CRLF each become one `\n`; CR CR LF becomes two. */
  lemma NormalisedForms()
    ensures Normalised([CR], 0, 1, false) == [NL]
    ensures Normalised([NL], 0, 1, false) == [NL]
    ensures Normalised([CR, NL], 0, 2, false) == [NL]
    ensures Normalised([CR, CR, NL], 0, 3, false) == [NL, NL]
  {
  }

  /** The loop state after an enclosed line break `c`: one `\n` unless `c` is the LF of a CRLF. */
  function AfterEnclosedBreak(s: Scanner, row: Row, c: char): Scanner {
    Consumed(s, row).(value := if !s.lastCrChar || c == CR then s.value + [NL] else s.value, lastCrChar := c == CR)
  }

  /**
   * The loop state after `n` enclosed line breaks from `s`: the reader `n` characters on, a
   * line counted for each break after the first, and the normalised newlines appended.
   */
  function AfterEnclosedBreaks(input: seq<char>, s: Scanner, row: Row, n: nat): Scanner
    requires 0 < n && s.pos + n <= |input|
  {
    var s1 := Consumed(s, row);
    s1.(pos := s.pos + n, lineNo := s1.lineNo + n - 1,
        value := s.value + Normalised(input, s.pos, s.pos + n, s.lastCrChar),
        lastCrChar := input[s.pos + n - 1] == CR)
  }

  /** A run of one break is that break. */
  lemma AfterOneEnclosedBreak(input: seq<char>, s: Scanner, row: Row)
    requires s.pos < |input|
    ensures AfterEnclosedBreaks(input, s, row, 1) == AfterEnclosedBreak(s, row, input[s.pos])
  {
    NormalisedRest(input, s.pos, s.pos + 1, s.lastCrChar, s.value);
  }

  /** One break, then `n - 1` more, is `n` breaks. */
  lemma AfterMoreEnclosedBreaks(input: seq<char>, s: Scanner, row: Row, n: nat)
    requires 1 < n && s.pos + n <= |input|
    ensures AfterEnclosedBreaks(input, AfterEnclosedBreak(s, row, input[s.pos]), Moved(row, 1).(linePos := 0), n - 1)
            == AfterEnclosedBreaks(input, s, row, n)
  {
    var s' := AfterEnclosedBreak(s, row, input[s.pos]);
    var a := AfterEnclosedBreaks(input, s', Moved(row, 1).(linePos := 0), n - 1);
    var b := AfterEnclosedBreaks(input, s, row, n);
    assert a.value == b.value by {
      NormalisedRest(input, s.pos, s.pos + n, s.lastCrChar, s.value);
    }
    var u := Consumed(s', Moved(row, 1).(linePos := 0));
    assert u.lineNo == s'.lineNo + 1 && u.recordNo == s'.recordNo;
    assert a.pos == b.pos && a.lineNo == b.lineNo && a.recordNo == b.recordNo && a.lastCrChar == b.lastCrChar;
  }

  /** The newlines of the breaks from `i` on are those of the first followed by the rest's. */
  lemma NormalisedRest(input: seq<char>, i: nat, j: nat, lastCr: bool, v: string)
    requires i < j <= |input|
    ensures (if input[i] == CR || !lastCr then v + [NL] else v) + Normalised(input, i + 1, j, input[i] == CR)
            == v + Normalised(input, i, j, lastCr)
  {
  }

  /**
   * A run of `n` line breaks inside an enclosure adds its normalised newlines to the value,
   * counts a line for each break that another character follows, and leaves the row open at
   * the start of a line.
   */
  lemma {:induction false} EnclosedBreaks(x: Extractor, input: seq<char>, data: bool, s: Scanner, row: Row, n: nat)
    requires ValidExtractor(x) && Fits(x, s) && Reading(input, s) && !s.eof
    requires 0 < n && s.pos + n <= |input| && row.recordPos + n <= x.maxRecordsChars
    requires row.enclosed && !row.lastEncloseChar
    requires forall k :: s.pos <= k < s.pos + n ==> IsEol(input[k])
    ensures ReadRowFrom(x, input, data, s, row)
            == ReadRowFrom(x, input, data, AfterEnclosedBreaks(input, s, row, n), Moved(row, n).(linePos := 0))
    decreases n
  {
    var s' := AfterEnclosedBreak(s, row, input[s.pos]);
    var row' := Moved(row, 1).(linePos := 0);
    EnclosedBreakStep(x, input, data, s, row);
    if n == 1 {
      AfterOneEnclosedBreak(input, s, row);
    } else {
      AfterMoreEnclosedBreaks(input, s, row, n);
      EnclosedBreaks(x, input, data, s', row', n - 1);
      assert Moved(row', n - 1).(linePos := 0) == Moved(row, n).(linePos := 0);
    }
  }

  /**
   * Outside an enclosure, or right after its closing quote, an LF right after a CR is
   * swallowed: the buffer is emptied and the record starts over.
   */
  lemma {:induction false} CrLfSwallowed(x: Extractor, input: seq<char>, data: bool, s: Scanner, row: Row)
    requires NextFits(x, input, s, row)
    requires input[s.pos] == NL && s.lastCrChar && (!row.enclosed || row.lastEncloseChar)
    ensures ReadRowFrom(x, input, data, s, row)
            == ReadRowFrom(x, input, data, Consumed(s, row).(value := [], lastCrChar := false),
                           row.(linePos := 0, fieldPos := 0, recordPos := 0))
  {
    var t := Step(x, data, s.(pos := s.pos + 1), row, input[s.pos]);
    assert t == StepResult(Proceed(row.(linePos := 0, fieldPos := 0, recordPos := 0)),
                           Consumed(s, row).(value := [], lastCrChar := false)) by {
      CrLfStep(x, data, s.(pos := s.pos + 1), row, input[s.pos]);
    }
    ReadRowFromChar(x, input, data, s, row, t);
  }

  lemma CrLfStep(x: Extractor, data: bool, s: Scanner, row: Row, c: char)
    requires ValidExtractor(x) && Fits(x, s) && row.recordPos < x.maxRecordsChars
    requires c == NL && s.lastCrChar && (!row.enclosed || row.lastEncloseChar)
    ensures Step(x, data, s, row, c)
            == StepResult(Proceed(row.(linePos := 0, fieldPos := 0, recordPos := 0)),
                          IncLineNo(s, row.recordPos, row.linePos).(value := [], lastCrChar := false))
  {
  }

  /**
   * Outside an enclosure, a line break that is not the LF of a CRLF ends a blank line by
   * finishing the data, and the record starts over.
   */
  lemma BlankLine(x: Extractor, input: seq<char>, data: bool, s: Scanner, row: Row)
    requires NextFits(x, input, s, row)
    requires var c := input[s.pos];
             IsEol(c) && !(s.lastCrChar && c == NL) && (!row.enclosed || row.lastEncloseChar)
    requires IsEmptyLine(s, row.fieldIndex)
    ensures ReadRowFrom(x, input, data, s, row)
            == ReadRowFrom(x, input, data, Consumed(s, row).(lastCrChar := input[s.pos] == CR, finished := true),
                           row.(linePos := 0, fieldPos := 0, recordPos := 0))
  {
    var t := Step(x, data, s.(pos := s.pos + 1), row, input[s.pos]);
    BlankLineStep(x, data, s.(pos := s.pos + 1), row, input[s.pos]);
    ReadRowFromChar(x, input, data, s, row, t);
  }

  lemma BlankLineStep(x: Extractor, data: bool, s: Scanner, row: Row, c: char)
    requires ValidExtractor(x) && Fits(x, s) && row.recordPos < x.maxRecordsChars
    requires IsEol(c) && !(s.lastCrChar && c == NL) && (!row.enclosed || row.lastEncloseChar)
    requires IsEmptyLine(s, row.fieldIndex)
    ensures Step(x, data, s, row, c)
            == StepResult(Proceed(row.(linePos := 0, fieldPos := 0, recordPos := 0)),
                          IncLineNo(s, row.recordPos, row.linePos).(lastCrChar := c == CR, finished := true))
  {
  }

  /**
   * Outside an enclosure, a line break that is not the LF of a CRLF and ends a line that is
   * not blank ends the row: after a blank line that is an error, so is a row short of
   * fields, and otherwise the last field is appended.
   */
  lemma {:induction false} RowEnd(x: Extractor, input: seq<char>, data: bool, s: Scanner, row: Row)
    requires NextFits(x, input, s, row)
    requires var c := input[s.pos];
             IsEol(c) && !(s.lastCrChar && c == NL) && (!row.enclosed || row.lastEncloseChar)
    requires !IsEmptyLine(s, row.fieldIndex)
    ensures var s1 := Consumed(s, row).(lastCrChar := input[s.pos] == CR);
            var r := ReadRowFrom(x, input, data, s, row);
            && (s.finished ==>
                  r == ReadResult(RowFailed(Failure(s1, row.fieldIndex, row.linePos + 1, None, NoMoreDataMessage(s1))), s1))
            && (!s.finished && row.fieldIndex + 1 < x.fieldCount ==>
                  r == ReadResult(RowFailed(Failure(s1, row.fieldIndex, row.linePos + 1, None, FieldCountMessage(x, row.fieldIndex))), s1))
            && (!s.finished && row.fieldIndex + 1 >= x.fieldCount ==>
                  match AppendFieldValue(x, data, s1, row.linePos + 1, row.fieldIndex)
                  case Err(e) => r == ReadResult(RowFailed(e), s1)
                  case Ok(s2) => r == ReadResult(RowRead, s2))
  {
    var t := Step(x, data, s.(pos := s.pos + 1), row, input[s.pos]);
    RowEndStep(x, data, s.(pos := s.pos + 1), row, input[s.pos]);
    ReadRowFromChar(x, input, data, s, row, t);
  }

  lemma RowEndStep(x: Extractor, data: bool, s: Scanner, row: Row, c: char)
    requires ValidExtractor(x) && Fits(x, s) && row.recordPos < x.maxRecordsChars
    requires IsEol(c) && !(s.lastCrChar && c == NL) && (!row.enclosed || row.lastEncloseChar)
    requires !IsEmptyLine(s, row.fieldIndex)
    ensures var s1 := IncLineNo(s, row.recordPos, row.linePos).(lastCrChar := c == CR);
            Step(x, data, s, row, c)
            == match VerifyMinFieldCount(x, s1, row.linePos + 1, row.fieldIndex)
               case Some(e) => StepResult(Stop(e), s1)
               case None =>
                 match AppendFieldValue(x, data, s1, row.linePos + 1, row.fieldIndex)
                 case Err(e) => StepResult(Stop(e), s1)
                 case Ok(s2) => StepResult(RowDone, s2)
  {
  }

  // ---------------------------------------------------------------------------------------
  // The end of the input
  // ---------------------------------------------------------------------------------------

  /**
   * At the end of the input a blank last line is no row; an open enclosure is an error, even
   * after a blank line; then a row after a blank line, or short of fields, is an error; and
   * otherwise the last field is appended.
   */
  lemma {:induction false} EndOfInput(x: Extractor, input: seq<char>, data: bool, s: Scanner, row: Row)
    requires ValidExtractor(x) && Fits(x, s) && Reading(input, s) && (s.eof || s.pos == |input|)
    ensures var s1 := s.(eof := true);
            var r := ReadRowFrom(x, input, data, s, row);
            && (IsEmptyLine(s, row.fieldIndex) ==> r == ReadResult(NoRow, s1))
            && (!IsEmptyLine(s, row.fieldIndex) && row.enclosed && !row.lastEncloseChar ==>
                  r == ReadResult(RowFailed(Failure(s1, row.fieldIndex, row.linePos, None, NotEnclosedMessage)), s1))
            && (!IsEmptyLine(s, row.fieldIndex) && !(row.enclosed && !row.lastEncloseChar) && s.finished ==>
                  r == ReadResult(RowFailed(Failure(s1, row.fieldIndex, row.linePos, None, NoMoreDataMessage(s1))), s1))
            && (!IsEmptyLine(s, row.fieldIndex) && !(row.enclosed && !row.lastEncloseChar) && !s.finished
                && row.fieldIndex + 1 < x.fieldCount ==>
                  r == ReadResult(RowFailed(Failure(s1, row.fieldIndex, row.linePos, None, FieldCountMessage(x, row.fieldIndex))), s1))
  {
    ReadRowFromEnd(x, input, data, s, row);
  }

  // ---------------------------------------------------------------------------------------
  // Quoted fields
  // ---------------------------------------------------------------------------------------

  /** A character as it is written inside an enclosure: a quote is doubled. */
  function Escaped(c: char): string {
    if c == Enclose then [Enclose, Enclose] else [c]
  }

  /** A text as it is written inside an enclosure, every quote doubled. */
  function Escape(text: string): (r: string)
    ensures |r| >= |text|
  {
    if text == [] then [] else Escaped(text[0]) + Escape(text[1..])
  }

  /**
   * `input[i..j]` is the written form of a text inside an enclosure: no line break, and
   * every quote doubled.
   */
  predicate EscapedAt(input: seq<char>, i: nat, j: nat)
    requires i <= j <= |input|
    decreases j - i
  {
    i == j
    || (!IsEol(input[i])
        && if input[i] == Enclose then i + 1 < j && input[i + 1] == Enclose && EscapedAt(input, i + 2, j)
           else EscapedAt(input, i + 1, j))
  }

  /** The text an escaped region stands for: each doubled quote read as one. */
  function Unescaped(input: seq<char>, i: nat, j: nat): string
    requires i <= j <= |input| && EscapedAt(input, i, j)
    decreases j - i
  {
    if i == j then [] else if input[i] == Enclose then [Enclose] + Unescaped(input, i + 2, j)
    else [input[i]] + Unescaped(input, i + 1, j)
  }

  /** The written form of a text without line breaks is an escaped region standing for the text. */
  lemma {:induction false} EscapeWritten(input: seq<char>, i: nat, text: string)
    requires forall k :: 0 <= k < |text| ==> !IsEol(text[k])
    requires i + |Escape(text)| <= |input| && input[i..i + |Escape(text)|] == Escape(text)
    ensures EscapedAt(input, i, i + |Escape(text)|) && Unescaped(input, i, i + |Escape(text)|) == text
    decreases |text|
  {
    if text != [] {
      var c, rest := text[0], text[1..];
      var k, n := |Escaped(c)|, |Escape(text)|;
      assert Escape(text) == Escaped(c) + Escape(rest);
      assert input[i] == Escaped(c)[0] by { assert input[i] == input[i..i + n][0]; }
      if c == Enclose {
        assert input[i + 1] == Escaped(c)[1] by { assert input[i + 1] == input[i..i + n][1]; }
      }
      assert input[i + k..i + n] == Escape(rest) by { assert input[i + k..i + n] == input[i..i + n][k..]; }
      forall m | 0 <= m < |rest| ensures !IsEol(rest[m]) {
        assert rest[m] == text[m + 1];
      }
      EscapeWritten(input, i + k, rest);
      assert text == [c] + rest;
    }
  }

  /**
   * The loop state after the escaped region from `s.pos` to `j`: the reader at `j` and the
   * text the region stands for appended to the value.
   */
  function AfterText(input: seq<char>, s: Scanner, j: nat): Scanner
    requires s.pos <= j <= |input| && EscapedAt(input, s.pos, j)
  {
    s.(pos := j, value := s.value + Unescaped(input, s.pos, j))
  }

  /** An empty region leaves the state as it is. */
  lemma {:induction false} AfterNoText(input: seq<char>, s: Scanner)
    requires s.pos <= |input|
    ensures EscapedAt(input, s.pos, s.pos) && AfterText(input, s, s.pos) == s
  {
    assert s.value + [] == s.value;
  }

  /** The first written character of a region, then the rest of it, is the whole region. */
  lemma {:induction false} AfterMoreText(input: seq<char>, s: Scanner, j: nat)
    requires s.pos < j <= |input| && EscapedAt(input, s.pos, j)
    ensures var k := if input[s.pos] == Enclose then 2 else 1;
            var s1 := s.(pos := s.pos + k, value := s.value + [input[s.pos]]);
            s1.pos <= j && EscapedAt(input, s1.pos, j) && AfterText(input, s1, j) == AfterText(input, s, j)
  {
    var k := if input[s.pos] == Enclose then 2 else 1;
    assert Unescaped(input, s.pos, j) == [input[s.pos]] + Unescaped(input, s.pos + k, j);
    assert s.value + [input[s.pos]] + Unescaped(input, s.pos + k, j) == s.value + Unescaped(input, s.pos, j);
  }

  /**
   * Inside an enclosure with no quote pending, the written form of one character adds the
   * character to the value: a doubled quote adds one quote.
   */
  lemma EnclosedChar(x: Extractor, input: seq<char>, data: bool, s: Scanner, row: Row)
    requires NextFits(x, input, s, row) && !s.lastCrChar
    requires row.enclosed && !row.lastEncloseChar && row.linePos >= 1 && row.fieldPos >= 1 && !IsEol(input[s.pos])
    requires input[s.pos] == Enclose ==> s.pos + 1 < |input| && input[s.pos + 1] == Enclose && row.recordPos + 1 < x.maxRecordsChars
    ensures var k := if input[s.pos] == Enclose then 2 else 1;
            ReadRowFrom(x, input, data, s, row)
            == ReadRowFrom(x, input, data, s.(pos := s.pos + k, value := s.value + [input[s.pos]]), Moved(row, k))
  {
    if input[s.pos] == Enclose {
      var q := s.(pos := s.pos + 1);
      var rowQ := Moved(row, 1).(lastEncloseChar := true);
      QuoteStep(x, input, data, s, row);
      QuoteStep(x, input, data, q, rowQ);
      assert Moved(rowQ, 1).(lastEncloseChar := false) == Moved(row, 2);
    } else {
      DataStep(x, input, data, s, row);
    }
  }

  /**
   * Inside an enclosure with no quote pending, an escaped region adds the text it stands for
   * to the value and leaves the enclosure open with no quote pending.
   */
  lemma {:induction false} EnclosedText(x: Extractor, input: seq<char>, data: bool, s: Scanner, row: Row, j: nat)
    requires ValidExtractor(x) && Fits(x, s) && Reading(input, s) && !s.eof && !s.lastCrChar
    requires row.enclosed && !row.lastEncloseChar && row.linePos >= 1 && row.fieldPos >= 1
    requires s.pos <= j <= |input| && EscapedAt(input, s.pos, j) && row.recordPos + (j - s.pos) <= x.maxRecordsChars
    ensures ReadRowFrom(x, input, data, s, row) == ReadRowFrom(x, input, data, AfterText(input, s, j), Moved(row, j - s.pos))
    decreases j - s.pos
  {
    if s.pos == j {
      AfterNoText(input, s);
      assert Moved(row, 0) == row;
    } else {
      var k := if input[s.pos] == Enclose then 2 else 1;
      var s1 := s.(pos := s.pos + k, value := s.value + [input[s.pos]]);
      assert ReadRowFrom(x, input, data, s, row) == ReadRowFrom(x, input, data, s1, Moved(row, k)) by {
        EnclosedChar(x, input, data, s, row);
      }
      AfterMoreText(input, s, j);
      assert ReadRowFrom(x, input, data, s1, Moved(row, k))
             == ReadRowFrom(x, input, data, AfterText(input, s1, j), Moved(Moved(row, k), j - s1.pos)) by {
        EnclosedText(x, input, data, s1, Moved(row, k), j);
      }
      assert Moved(Moved(row, k), j - s1.pos) == Moved(row, j - s.pos);
    }
  }

  /** A quoted written form: the quotes at both ends, the escaped text between them. */
  lemma QuotedWritten(input: seq<char>, i: nat, text: string)
    requires forall k :: 0 <= k < |text| ==> !IsEol(text[k])
    requires var n := |Escape(text)|;
             i + n + 2 <= |input| && input[i..i + n + 2] == [Enclose] + Escape(text) + [Enclose]
    ensures var n := |Escape(text)|;
            input[i] == Enclose && input[i + n + 1] == Enclose
            && EscapedAt(input, i + 1, i + 1 + n) && Unescaped(input, i + 1, i + 1 + n) == text
  {
    var n := |Escape(text)|;
    var w := input[i..i + n + 2];
    assert input[i] == w[0] && input[i + n + 1] == w[n + 1];
    var e := Escape(text);
    assert input[i + 1..i + 1 + n] == e by {
      forall m | 0 <= m < n ensures input[i + 1 + m] == e[m] {
        assert input[i + 1 + m] == w[1 + m] == (([Enclose] + e) + [Enclose])[1 + m];
      }
    }
    EscapeWritten(input, i + 1, text);
  }

  /**
   * A quote at the first position of a field, then an escaped region, leaves the text the
   * region stands for in the value and the enclosure open with no quote pending.
   */
  lemma OpenedText(x: Extractor, input: seq<char>, data: bool, s: Scanner, row: Row, j: nat)
    requires NextFits(x, input, s, row) && input[s.pos] == Enclose && row.fieldPos == 0
    requires s.pos + 1 <= j <= |input| && EscapedAt(input, s.pos + 1, j) && row.recordPos + (j - s.pos) <= x.maxRecordsChars
    ensures ReadRowFrom(x, input, data, s, row)
            == ReadRowFrom(x, input, data,
                           Consumed(s, row).(pos := j, lastCrChar := false, value := s.value + Unescaped(input, s.pos + 1, j)),
                           Moved(row, j - s.pos).(enclosed := true, lastEncloseChar := false))
  {
    var s1 := Consumed(s, row).(lastCrChar := false);
    var row1 := Moved(row, 1).(enclosed := true, lastEncloseChar := false);
    assert ReadRowFrom(x, input, data, s, row) == ReadRowFrom(x, input, data, s1, row1) by {
      OpeningQuote(x, input, data, s, row);
    }
    assert ReadRowFrom(x, input, data, s1, row1) == ReadRowFrom(x, input, data, AfterText(input, s1, j), Moved(row1, j - s1.pos)) by {
      EnclosedText(x, input, data, s1, row1, j);
    }
    assert Moved(row1, j - s1.pos) == Moved(row, j - s.pos).(enclosed := true, lastEncloseChar := false);
  }

  /**
   * A quote at the first position of a field, an escaped region and a closing quote leave the
   * text the region stands for in the value, with the closing quote pending.
   */
  lemma ClosedField(x: Extractor, input: seq<char>, data: bool, s: Scanner, row: Row, j: nat, m: nat, v: string)
    requires NextFits(x, input, s, row) && input[s.pos] == Enclose && row.fieldPos == 0
    requires s.pos + 1 <= j < |input| && EscapedAt(input, s.pos + 1, j) && input[j] == Enclose
    requires m == j + 1 - s.pos && v == s.value + Unescaped(input, s.pos + 1, j)
    requires row.recordPos + m <= x.maxRecordsChars
    ensures ReadRowFrom(x, input, data, s, row)
            == ReadRowFrom(x, input, data, Consumed(s, row).(pos := s.pos + m, lastCrChar := false, value := v),
                           Moved(row, m).(enclosed := true, lastEncloseChar := true))
  {
    var s2 := Consumed(s, row).(pos := j, lastCrChar := false, value := s.value + Unescaped(input, s.pos + 1, j));
    var row2 := Moved(row, j - s.pos).(enclosed := true, lastEncloseChar := false);
    assert ReadRowFrom(x, input, data, s, row) == ReadRowFrom(x, input, data, s2, row2) by {
      OpenedText(x, input, data, s, row, j);
    }
    assert ReadRowFrom(x, input, data, s2, row2)
           == ReadRowFrom(x, input, data, Consumed(s2, row2).(lastCrChar := false), Moved(row2, 1).(lastEncloseChar := true)) by {
      PendingQuote(x, input, data, s2, row2);
    }
    assert Consumed(s2, row2).(lastCrChar := false) == Consumed(s, row).(pos := s.pos + m, lastCrChar := false, value := v);
    assert Moved(row2, 1).(lastEncloseChar := true) == Moved(row, m).(enclosed := true, lastEncloseChar := true);
  }

  /**
   * A field opened by a quote at its first position and written as the escaped text with a
   * closing quote leaves exactly the text in the value, with the closing quote pending.
   */
  lemma QuotedField(x: Extractor, input: seq<char>, data: bool, s: Scanner, row: Row, text: string, m: nat, v: string)
    requires ValidExtractor(x) && Fits(x, s) && Reading(input, s) && !s.eof && row.fieldPos == 0
    requires forall k :: 0 <= k < |text| ==> !IsEol(text[k])
    requires m == |Escape(text)| + 2 && v == s.value + text
    requires s.pos + m <= |input| && input[s.pos..s.pos + m] == [Enclose] + Escape(text) + [Enclose]
    requires row.recordPos + m <= x.maxRecordsChars
    ensures ReadRowFrom(x, input, data, s, row)
            == ReadRowFrom(x, input, data, Consumed(s, row).(pos := s.pos + m, lastCrChar := false, value := v),
                           Moved(row, m).(enclosed := true, lastEncloseChar := true))
  {
    var j := s.pos + 1 + |Escape(text)|;
    QuotedFieldReady(x, input, s, row, text, m, v, j);
    ClosedField(x, input, data, s, row, j, m, v);
  }

  /** The quoted field meets what `ClosedField` asks, with its closing quote at `j`. */
  lemma QuotedFieldReady(x: Extractor, input: seq<char>, s: Scanner, row: Row, text: string, m: nat, v: string, j: nat)
    requires ValidExtractor(x) && Fits(x, s) && Reading(input, s) && !s.eof && row.fieldPos == 0
    requires forall k :: 0 <= k < |text| ==> !IsEol(text[k])
    requires m == |Escape(text)| + 2 && v == s.value + text && j == s.pos + 1 + |Escape(text)|
    requires s.pos + m <= |input| && input[s.pos..s.pos + m] == [Enclose] + Escape(text) + [Enclose]
    requires row.recordPos + m <= x.maxRecordsChars
    ensures NextFits(x, input, s, row) && input[s.pos] == Enclose
    ensures s.pos + 1 <= j < |input| && EscapedAt(input, s.pos + 1, j) && input[j] == Enclose
    ensures m == j + 1 - s.pos && v == s.value + Unescaped(input, s.pos + 1, j)
  {
    QuotedWritten(input, s.pos, text);
  }

  // ---------------------------------------------------------------------------------------
  // Unquoted fields
  // ---------------------------------------------------------------------------------------

  /** The characters of an unquoted field: neither line breaks nor separators. */
  predicate PlainAt(x: Extractor, input: seq<char>, i: nat, j: nat)
    requires i <= j <= |input|
  {
    forall k :: i <= k < j ==> !IsEol(input[k]) && input[k] != x.fieldSeparator
  }

  /** The loop state after the characters from `s.pos` to `j` are taken literally. */
  function AfterPlain(input: seq<char>, s: Scanner, j: nat): Scanner
    requires s.pos <= j <= |input|
  {
    s.(pos := j, value := s.value + input[s.pos..j])
  }

  /** The first character, then the rest, is the whole run. */
  lemma AfterMorePlain(input: seq<char>, s: Scanner, j: nat)
    requires s.pos < j <= |input|
    ensures AfterPlain(input, s.(pos := s.pos + 1, value := s.value + [input[s.pos]]), j) == AfterPlain(input, s, j)
  {
    assert input[s.pos..j] == [input[s.pos]] + input[s.pos + 1..j];
  }

  /**
   * Outside an enclosure and past the first character of a line, each character of an
   * unquoted field is appended as it is: a quote is a quote unless it opens the field.
   */
  lemma {:induction false} PlainText(x: Extractor, input: seq<char>, data: bool, s: Scanner, row: Row, j: nat)
    requires ValidExtractor(x) && Fits(x, s) && Reading(input, s) && !s.eof && !s.lastCrChar
    requires !row.enclosed && !row.lastEncloseChar && row.linePos >= 1
    requires s.pos <= j <= |input| && PlainAt(x, input, s.pos, j) && row.recordPos + (j - s.pos) <= x.maxRecordsChars
    requires row.fieldPos == 0 && s.pos < j ==> input[s.pos] != Enclose
    ensures ReadRowFrom(x, input, data, s, row) == ReadRowFrom(x, input, data, AfterPlain(input, s, j), Moved(row, j - s.pos))
    decreases j - s.pos
  {
    if s.pos == j {
      assert AfterPlain(input, s, j) == s by {
        assert s.value + input[s.pos..j] == s.value;
      }
      assert Moved(row, 0) == row;
    } else {
      var s1 := s.(pos := s.pos + 1, value := s.value + [input[s.pos]]);
      assert ReadRowFrom(x, input, data, s, row) == ReadRowFrom(x, input, data, s1, Moved(row, 1)) by {
        DataStep(x, input, data, s, row);
      }
      AfterMorePlain(input, s, j);
      assert ReadRowFrom(x, input, data, s1, Moved(row, 1))
             == ReadRowFrom(x, input, data, AfterPlain(input, s1, j), Moved(Moved(row, 1), j - s1.pos)) by {
        PlainText(x, input, data, s1, Moved(row, 1), j);
      }
      assert Moved(Moved(row, 1), j - s1.pos) == Moved(row, j - s.pos);
    }
  }

  // ---------------------------------------------------------------------------------------
  // Header rows and the end of the data
  // ---------------------------------------------------------------------------------------

  /**
   * One pass of the loop: a header row converts nothing, so no value slot changes; and once a
   * blank line has finished the data, the flag stays set and no row can end successfully.
   */
  lemma StepKeeps(x: Extractor, data: bool, s: Scanner, row: Row, c: char)
    requires ValidExtractor(x) && Fits(x, s)
    ensures var t := Step(x, data, s, row, c);
            && (!data ==> t.s.values == s.values)
            && (s.finished ==> t.s.finished && !t.action.RowDone?)
  {
    if row.recordPos + 1 <= x.maxRecordsChars {
      DispatchKeeps(x, data, IncLineNo(s, row.recordPos, row.linePos), Moved(row, 1), c);
    }
  }

  /** The same for the pass once the positions are advanced, which also keeps the record number. */
  lemma DispatchKeeps(x: Extractor, data: bool, s: Scanner, row: Row, c: char)
    requires ValidExtractor(x) && Fits(x, s)
    ensures var t := Dispatch(x, data, s, row, c);
            && (!data ==> t.s.values == s.values)
            && (s.finished ==> t.s.finished && !t.action.RowDone?)
            && t.s.recordNo == s.recordNo
  {
    if IsEol(c) {
      LineBreakKeeps(x, data, s, row, c);
    }
  }

  /** The same for a line break. */
  lemma LineBreakKeeps(x: Extractor, data: bool, s: Scanner, row: Row, c: char)
    requires ValidExtractor(x) && Fits(x, s)
    ensures var t := LineBreak(x, data, s, row, c);
            && (!data ==> t.s.values == s.values)
            && (s.finished ==> t.s.finished && !t.action.RowDone?)
            && t.s.recordNo == s.recordNo
  {
    if !(row.enclosed && !row.lastEncloseChar) && !(s.lastCrChar && c == NL) {
      LineEndKeeps(x, data, s.(lastCrChar := c == CR), row.linePos, row.fieldIndex);
    }
  }

  /** The end of a line: likewise for `handleEol`'s own verdict. */
  lemma LineEndKeeps(x: Extractor, data: bool, s: Scanner, linePos: nat, fieldIndex: nat)
    requires ValidExtractor(x) && Fits(x, s)
    ensures var r := LineEnd(x, data, s, linePos, fieldIndex);
            && (!data ==> r.s.values == s.values)
            && (s.finished ==> r.s.finished && !(r.Eol? && r.action.EolReturn?))
            && r.s.recordNo == s.recordNo
  {
  }

  /**
   * The rest of `readRow`: a header row leaves every value slot as it was; after a blank line
   * the data stays finished and no row is read.
   */
  lemma {:induction false} ReadRowKeeps(x: Extractor, input: seq<char>, data: bool, s: Scanner, row: Row)
    requires ValidExtractor(x) && Fits(x, s) && Reading(input, s)
    ensures var r := ReadRowFrom(x, input, data, s, row);
            && (!data ==> r.s.values == s.values)
            && (s.finished ==> r.s.finished && !r.outcome.RowRead?)
    decreases Remaining(input, s)
  {
    if s.eof || s.pos == |input| {
      ReadRowFromEnd(x, input, data, s, row);
    } else {
      var t := Step(x, data, s.(pos := s.pos + 1), row, input[s.pos]);
      StepKeeps(x, data, s.(pos := s.pos + 1), row, input[s.pos]);
      ReadRowFromChar(x, input, data, s, row, t);
      if t.action.Proceed? {
        ReadRowKeeps(x, input, data, t.s, t.action.row);
      }
    }
  }

  /** Skipping header rows leaves every value slot as it was, and keeps finished data finished. */
  lemma {:induction false} SkipRowsKeeps(x: Extractor, input: seq<char>, s: Scanner)
    requires ValidExtractor(x) && Fits(x, s) && Reading(input, s)
    ensures var r := SkipRows(x, input, s);
            && r.s.values == s.values
            && (s.finished ==> r.s.finished && (r.outcome.RowRead? ==> s.skippedCount >= x.skipCount))
    decreases x.skipCount - s.skippedCount
  {
    if s.skippedCount < x.skipCount {
      var r := ReadRow(x, input, false, s);
      ReadRowKeeps(x, input, false, s.(value := []), RowStart);
      SkipRowsStep(x, input, s, r.outcome, r.s);
      if r.outcome.RowRead? {
        SkipRowsKeeps(x, input, r.s.(skippedCount := r.s.skippedCount + 1));
      }
    }
  }

  /** Once a blank line has finished the data, no further record is extracted. */
  lemma {:induction false} FinishedYieldsNoRecord(x: Extractor, input: seq<char>, s: Scanner)
    requires ValidExtractor(x) && Fits(x, s) && Reading(input, s) && s.finished
    ensures !TryAdvance(x, input, s).advance.Next?
  {
    if s.skippedCount < x.skipCount {
      var k := SkipRows(x, input, s);
      SkipRowsKeeps(x, input, s);
      if k.outcome.RowRead? {
        ReadRowKeeps(x, input, true, k.s.(value := []), RowStart);
      }
    } else {
      ReadRowKeeps(x, input, true, s.(value := []), RowStart);
    }
  }

  // ---------------------------------------------------------------------------------------
  // The field table and appending a field
  // ---------------------------------------------------------------------------------------

  /**
   * When no two fields share an ordinal, the table built by the constructor holds every field
   * of the list in the slot of its own ordinal.
   */
  lemma {:induction false} FieldAtOwnOrdinal(list: seq<Field>, k: nat)
    requires k < |list|
    requires forall i, j :: 0 <= i < j < |list| ==> list[i].ordinal != list[j].ordinal
    ensures FieldAt(list, list[k].ordinal) == Some(list[k])
    decreases |list|
  {
    if k < |list| - 1 {
      var prefix := list[..|list| - 1];
      assert list[k] == prefix[k];
      FieldAtOwnOrdinal(prefix, k);
    }
  }

  /**
   * What `appendFieldValue` does with the buffer on a data row and a declared slot: the slot
   * receives the field's conversion of the text when that succeeds and is not a null the
   * field forbids; a failed conversion and a forbidden null are reported with the text as the
   * invalid value; an exception of another kind passes through unchanged.
   */
  lemma AppendConverts(x: Extractor, s: Scanner, linePos: nat, fieldIndex: nat)
    requires ValidExtractor(x) && Fits(x, s) && fieldIndex < x.fieldCount && x.fields[fieldIndex].Some?
    ensures var f := x.fields[fieldIndex].value;
            var c := Fields.Convert(f, Str(s.value));
            var r := AppendFieldValue(x, true, s, linePos, fieldIndex);
            && (r.Ok? <==> c.Ok? && (c.value != Null || f.nullable))
            && (r.Ok? ==> r.value.values[fieldIndex] == c.value)
            && (c.Err? && c.error.ConversionException? ==>
                  r == Err(Failure(s, fieldIndex, linePos, Some(s.value), InvalidValueMessage(s, fieldIndex, s.value))))
            && (c.Err? && !c.error.ConversionException? ==> r == Err(c.error))
            && (c.Ok? && c.value == Null && !f.nullable ==>
                  r == Err(Failure(s, fieldIndex, linePos, Some(s.value), NullValueMessage(s, fieldIndex))))
  {
  }

  /**
   * A blank field of a non-nullable field with a converter is refused as a null value, with
   * the blank text as the invalid value: the converter turns blank text into null.
   */
  lemma BlankIsNull(x: Extractor, s: Scanner, linePos: nat, fieldIndex: nat)
    requires ValidExtractor(x) && Fits(x, s) && fieldIndex < x.fieldCount && x.fields[fieldIndex].Some?
    requires x.fields[fieldIndex].value.converter.Some? && !x.fields[fieldIndex].value.nullable
    requires forall k :: 0 <= k < |s.value| ==> IsTrimmable(s.value[k])
    ensures AppendFieldValue(x, true, s, linePos, fieldIndex)
            == Err(Failure(s, fieldIndex, linePos, Some(s.value), NullValueMessage(s, fieldIndex)))
  {
    AppendConverts(x, s, linePos, fieldIndex);
  }

  /** Header rows, slots beyond the declared ones and slots of no field only empty the buffer. */
  lemma AppendSkips(x: Extractor, data: bool, s: Scanner, linePos: nat, fieldIndex: nat)
    requires ValidExtractor(x) && Fits(x, s)
    requires !data || fieldIndex >= x.fieldCount || x.fields[fieldIndex].None?
    ensures AppendFieldValue(x, data, s, linePos, fieldIndex) == Ok(s.(value := []))
  {
  }

}
