/**
 * `CsvExtractor` and its `CsvSpliterator`, as the Java code runs them: the constructor fills
 * the table of fields by ordinal, and the spliterator reads its input one character at a time,
 * updating its fields and the `values` array in place. Every method is proved to do what the
 * functions of `CsvModel` say.
 */
module CsvExtractor {
  import opened Wrappers
  import opened JavaText
  import opened Exceptions
  import opened Types
  import opened Fields
  import opened MetaData
  import opened Records
  import opened CsvModel

  function SeparatorMessage(c: char): string {
    "Field separator is invalid: " + [c]
  }

  /**
   * The constructor: a line break or a quote as separator is refused, then an empty set of
   * fields; otherwise slot `i` of the table holds the last field of ordinal `i` in ordinal
   * order, and nothing when no field has ordinal `i`.
   */
  method NewExtractor(fieldSeparator: char, fields: seq<Field>, skipCount: int, maxRecordsChars: int)
    returns (r: Result<Extractor, Exception>)
    requires forall k :: 0 <= k < |fields| ==> Fields.Valid(fields[k])
    ensures r.Ok? <==> ValidSeparator(fieldSeparator) && |fields| > 0
    ensures !ValidSeparator(fieldSeparator) ==> r == Err(IllegalArgumentException(SeparatorMessage(fieldSeparator)))
    ensures ValidSeparator(fieldSeparator) && |fields| == 0 ==> r == Err(IllegalArgumentException(NoFieldsMessage))
    ensures r.Ok? ==> && ValidExtractor(r.value)
                      && r.value.fieldSeparator == fieldSeparator
                      && r.value.skipCount == skipCount
                      && r.value.maxRecordsChars == maxRecordsChars
                      && r.value.metaData == NewMetaData(fields).value
    ensures r.Ok? ==> forall i :: 0 <= i < r.value.fieldCount ==>
                        r.value.fields[i] == FieldAt(r.value.metaData.fieldList, i)
  {
    if fieldSeparator == NL || fieldSeparator == CR || fieldSeparator == Enclose {
      return Err(IllegalArgumentException(SeparatorMessage(fieldSeparator)));
    }
    var md := NewMetaData(fields);
    if md.Err? {
      return Err(md.error);
    }
    var metaData := md.value;
    var fieldCount := metaData.maxFieldOrdinal + 1;
    var table := FieldTable(FieldStream(metaData), fieldCount);
    forall i | 0 <= i < fieldCount && table[i].Some?
      ensures Fields.Valid(table[i].value)
    {
      assert table[i].value in multiset(fields);
    }
    return Ok(Extractor(fieldSeparator, skipCount, maxRecordsChars, metaData, fieldCount, table));
  }

  /** `fields[field.ordinal()] = field` for each field of `list` in turn, into an array of nulls. */
  method FieldTable(list: seq<Field>, fieldCount: nat) returns (r: seq<Option<Field>>)
    requires forall k :: 0 <= k < |list| ==> list[k].ordinal < fieldCount
    ensures |r| == fieldCount
    ensures forall i :: 0 <= i < fieldCount ==> r[i] == FieldAt(list, i)
  {
    var table := new Option<Field>[fieldCount](_ => None);
    for k := 0 to |list|
      invariant forall i :: 0 <= i < fieldCount ==> table[i] == FieldAt(list[..k], i)
    {
      var field := list[k];
      table[field.ordinal] := Some(field);
      assert list[..k + 1][..k] == list[..k];
    }
    assert list[..|list|] == list;
    return table[..];
  }

  /**
   * `CsvSpliterator`: the reader is the `input` and the number `pos` of characters it has
   * delivered; `value` is the `StringBuilder` of the current field.
   */
  class CsvSpliterator {
    const extractor: Extractor
    const input: seq<char>
    const values: array<Value>
    var pos: nat
    var value: string
    var eof: bool
    var finished: bool
    var lastCrChar: bool
    var skippedCount: nat
    var lineNo: nat
    var recordNo: nat

    /** The fields as a `CsvModel.Scanner`. */
    function State(): Scanner
      reads this, values
    {
      Scanner(pos, eof, finished, lastCrChar, skippedCount, lineNo, recordNo, value, values[..])
    }

    ghost predicate Valid()
      reads this, values
    {
      ValidExtractor(extractor) && Fits(extractor, State()) && Reading(input, State())
    }

    /** A spliterator at the start of `input`, every value slot null. */
    constructor (x: Extractor, input: seq<char>)
      requires ValidExtractor(x)
      ensures Valid() && fresh(values)
      ensures extractor == x && this.input == input && State() == Initial(x)
    {
      extractor := x;
      this.input := input;
      values := new Value[x.fieldCount](_ => Null);
      pos := 0;
      value := "";
      eof := false;
      finished := false;
      lastCrChar := false;
      skippedCount := 0;
      lineNo := 0;
      recordNo := 0;
    }

    /** `read`: the next character, or nothing once the input is exhausted, which sets `eof`. */
    method Read() returns (c: Option<char>)
      requires Valid()
      modifies this
      ensures Valid()
      ensures old(eof) ==> c.None? && State() == old(State())
      ensures !old(eof) && old(pos) == |input| ==> c.None? && State() == old(State()).(eof := true)
      ensures !old(eof) && old(pos) < |input| ==> c == Some(input[old(pos)]) && State() == old(State()).(pos := old(pos) + 1)
    {
      if eof {
        return None;
      }
      if pos == |input| {
        eof := true;
        return None;
      }
      c := Some(input[pos]);
      pos := pos + 1;
    }

    method IncLineNo(recordPos: nat, linePos: nat)
      modifies this
      ensures State() == CsvModel.IncLineNo(old(State()), recordPos, linePos)
    {
      if linePos == 0 {
        if recordPos == 0 {
          recordNo := recordNo + 1;
        }
        lineNo := lineNo + 1;
      }
    }

    method HandleEnclose(lastEncloseChar: bool, fieldPos: nat) returns (pending: bool)
      modifies this
      ensures (value, pending) == CsvModel.HandleEnclose(old(value), lastEncloseChar, fieldPos)
      ensures State() == old(State()).(value := value)
    {
      if fieldPos == 1 {
        pending := false;
      } else if lastEncloseChar {
        value := value + [Enclose];
        pending := false;
      } else {
        pending := true;
      }
    }

    method IsEmptyLine(fieldIndex: nat) returns (empty: bool)
      ensures empty == CsvModel.IsEmptyLine(State(), fieldIndex)
    {
      empty := fieldIndex == 0 && IsBlank(value);
    }

    method VerifyMaxRecordChars(recordPos: nat, linePos: nat, fieldIndex: nat) returns (e: Option<Exception>)
      ensures e.Some? <==> recordPos > extractor.maxRecordsChars
      ensures e.Some? ==> e.value == Failure(State(), fieldIndex, linePos, None, ExceedsMessage(extractor))
    {
      if recordPos > extractor.maxRecordsChars {
        return Some(Failure(State(), fieldIndex, linePos, None, ExceedsMessage(extractor)));
      }
      return None;
    }

    method VerifyEnclosedEncloseChar(enclosed: bool, lastEncloseChar: bool, linePos: nat, fieldIndex: nat)
      returns (e: Option<Exception>)
      ensures e.Some? <==> enclosed && lastEncloseChar
      ensures e.Some? ==> e.value == Failure(State(), fieldIndex, linePos, None, NotEnclosedMessage)
    {
      if enclosed && lastEncloseChar {
        return Some(Failure(State(), fieldIndex, linePos, None, NotEnclosedMessage));
      }
      return None;
    }

    method VerifyEncloseEnd(enclosed: bool, lastEncloseChar: bool, linePos: nat, fieldIndex: nat)
      returns (e: Option<Exception>)
      ensures e.Some? <==> enclosed && !lastEncloseChar
      ensures e.Some? ==> e.value == Failure(State(), fieldIndex, linePos, None, NotEnclosedMessage)
    {
      if enclosed && !lastEncloseChar {
        return Some(Failure(State(), fieldIndex, linePos, None, NotEnclosedMessage));
      }
      return None;
    }

    method VerifyMinFieldCount(linePos: nat, fieldIndex: nat) returns (e: Option<Exception>)
      ensures e == CsvModel.VerifyMinFieldCount(extractor, State(), linePos, fieldIndex)
    {
      if finished {
        return Some(Failure(State(), fieldIndex, linePos, None, NoMoreDataMessage(State())));
      }
      if fieldIndex + 1 < extractor.fieldCount {
        return Some(Failure(State(), fieldIndex, linePos, None, FieldCountMessage(extractor, fieldIndex)));
      }
      return None;
    }

    /** `appendFieldValue`: on success the state is the model's; on an exception it is unchanged. */
    method AppendFieldValue(data: bool, linePos: nat, fieldIndex: nat) returns (e: Option<Exception>)
      requires Valid()
      modifies this, values
      ensures Valid()
      ensures e.None? ==> CsvModel.AppendFieldValue(extractor, data, old(State()), linePos, fieldIndex) == Ok(State())
      ensures e.Some? ==> CsvModel.AppendFieldValue(extractor, data, old(State()), linePos, fieldIndex) == Err(e.value)
      ensures e.Some? ==> State() == old(State())
    {
      if data && fieldIndex < extractor.fieldCount && extractor.fields[fieldIndex].Some? {
        var field := extractor.fields[fieldIndex].value;
        var text := value;
        var converted := Fields.Convert(field, Str(text));
        if converted.Err? && converted.error.ConversionException? {
          return Some(Failure(State(), fieldIndex, linePos, Some(text), InvalidValueMessage(State(), fieldIndex, text)));
        }
        if converted.Err? {
          return Some(converted.error);
        }
        if converted.value == Null && !field.nullable {
          return Some(Failure(State(), fieldIndex, linePos, Some(text), NullValueMessage(State(), fieldIndex)));
        }
        values[fieldIndex] := converted.value;
      }
      value := [];
      return None;
    }

    /**
     * `handleEol`: the action the loop takes, or the exception thrown, with the state the
     * model gives.
     */
    method HandleEol(data: bool, enclosed: bool, lastEncloseChar: bool, linePos: nat, fieldIndex: nat, c: char)
      returns (r: Result<EolAction, Exception>)
      requires Valid()
      modifies this, values
      ensures Valid()
      ensures r.Ok? ==> CsvModel.HandleEol(extractor, data, old(State()), enclosed, lastEncloseChar, linePos, fieldIndex, c)
                        == Eol(r.value, State())
      ensures r.Err? ==> CsvModel.HandleEol(extractor, data, old(State()), enclosed, lastEncloseChar, linePos, fieldIndex, c)
                         == EolThrow(State(), r.error)
    {
      if enclosed && !lastEncloseChar {
        if !lastCrChar || c == CR {
          value := value + [NL];
        }
        lastCrChar := c == CR;
        return Ok(EolContinue);
      }
      if lastCrChar && c == NL {
        value := [];
        lastCrChar := false;
        return Ok(EolReset);
      }
      lastCrChar := c == CR;
      r := LineEnd(data, linePos, fieldIndex);
    }

    /** The rest of `handleEol` once the line break is known to end a line outside an enclosure. */
    method LineEnd(data: bool, linePos: nat, fieldIndex: nat) returns (r: Result<EolAction, Exception>)
      requires Valid()
      modifies this, values
      ensures Valid()
      ensures r.Ok? ==> CsvModel.LineEnd(extractor, data, old(State()), linePos, fieldIndex) == Eol(r.value, State())
      ensures r.Err? ==> CsvModel.LineEnd(extractor, data, old(State()), linePos, fieldIndex) == EolThrow(State(), r.error)
    {
      var empty := IsEmptyLine(fieldIndex);
      if empty {
        finished := true;
        return Ok(EolReset);
      }
      var e := VerifyMinFieldCount(linePos, fieldIndex);
      if e.Some? {
        return Err(e.value);
      }
      e := AppendFieldValue(data, linePos, fieldIndex);
      if e.Some? {
        return Err(e.value);
      }
      return Ok(EolReturn);
    }

    /** `handleEof`: the outcome of `readRow` at the end of the input, with the model's state. */
    method HandleEof(data: bool, enclosed: bool, lastEncloseChar: bool, linePos: nat, fieldIndex: nat)
      returns (r: RowOutcome)
      requires Valid()
      modifies this, values
      ensures Valid()
      ensures ReadResult(r, State()) == CsvModel.HandleEof(extractor, data, old(State()), enclosed, lastEncloseChar, linePos, fieldIndex)
    {
      var empty := IsEmptyLine(fieldIndex);
      if empty {
        return NoRow;
      }
      var e := VerifyEncloseEnd(enclosed, lastEncloseChar, linePos, fieldIndex);
      if e.Some? {
        return RowFailed(e.value);
      }
      e := VerifyMinFieldCount(linePos, fieldIndex);
      if e.Some? {
        return RowFailed(e.value);
      }
      e := AppendFieldValue(data, linePos, fieldIndex);
      if e.Some? {
        return RowFailed(e.value);
      }
      return RowRead;
    }

    /**
     * The body of `readRow`'s loop once a character `c` has been read, with `readRow`'s local
     * variables in `row`: count, advance, check the limit, then dispatch on `c`.
     */
    method ProcessChar(data: bool, row: Row, c: char) returns (action: StepAction)
      requires Valid()
      modifies this, values
      ensures Valid()
      ensures StepResult(action, State()) == CsvModel.Step(extractor, data, old(State()), row, c)
    {
      ghost var s0 := State();
      IncLineNo(row.recordPos, row.linePos);
      ghost var s1 := State();
      var moved := row.(linePos := row.linePos + 1, fieldPos := row.fieldPos + 1, recordPos := row.recordPos + 1);
      assert CsvModel.Step(extractor, data, s0, row, c)
             == if moved.recordPos > extractor.maxRecordsChars
                then StepResult(Stop(Failure(s1, row.fieldIndex, moved.linePos, None, ExceedsMessage(extractor))), s1)
                else CsvModel.Dispatch(extractor, data, s1, moved, c);
      var failure := VerifyMaxRecordChars(moved.recordPos, moved.linePos, row.fieldIndex);
      if failure.Some? {
        return Stop(failure.value);
      }
      action := DispatchChar(data, moved, c);
    }

    /** A line break: the `switch` on what `handleEol` returns. */
    method LineBreak(data: bool, row: Row, c: char) returns (action: StepAction)
      requires Valid()
      modifies this, values
      ensures Valid()
      ensures StepResult(action, State()) == CsvModel.LineBreak(extractor, data, old(State()), row, c)
    {
      var eol := HandleEol(data, row.enclosed, row.lastEncloseChar, row.linePos, row.fieldIndex, c);
      if eol.Err? {
        return Stop(eol.error);
      }
      match eol.value
      case EolContinue =>
        return Proceed(row.(lastEncloseChar := false, linePos := 0));
      case EolReset =>
        return Proceed(row.(linePos := 0, fieldPos := 0, recordPos := 0));
      case EolReturn =>
        return RowDone;
    }

    /** The branches of `readRow`'s loop: a line break, a quote, a separator or a data character. */
    method DispatchChar(data: bool, row: Row, c: char) returns (action: StepAction)
      requires Valid()
      modifies this, values
      ensures Valid()
      ensures StepResult(action, State()) == CsvModel.Dispatch(extractor, data, old(State()), row, c)
    {
      if IsEol(c) {
        action := LineBreak(data, row, c);
      } else if IsEncloseDelimiter(row.enclosed, row.fieldPos, c) {
        action := Quote(row);
      } else if IsFieldSeparator(extractor, row.enclosed, row.lastEncloseChar, c) {
        action := Separator(data, row);
      } else {
        action := DataChar(row, c);
      }
    }

    method Quote(row: Row) returns (action: StepAction)
      requires Valid()
      modifies this
      ensures Valid()
      ensures StepResult(action, State()) == CsvModel.Quote(old(State()), row)
    {
      lastCrChar := false;
      var enclosed := row.enclosed;
      if row.fieldPos == 1 {
        enclosed := true;
      }
      var pending := HandleEnclose(row.lastEncloseChar, row.fieldPos);
      return Proceed(row.(enclosed := enclosed, lastEncloseChar := pending));
    }

    method Separator(data: bool, row: Row) returns (action: StepAction)
      requires Valid()
      modifies this, values
      ensures Valid()
      ensures StepResult(action, State()) == CsvModel.Separator(extractor, data, old(State()), row)
    {
      var failure := AppendFieldValue(data, row.linePos, row.fieldIndex);
      if failure.Some? {
        return Stop(failure.value);
      }
      lastCrChar := false;
      return Proceed(row.(enclosed := false, lastEncloseChar := false, fieldIndex := row.fieldIndex + 1, fieldPos := 0));
    }

    method DataChar(row: Row, c: char) returns (action: StepAction)
      requires Valid()
      modifies this
      ensures Valid()
      ensures StepResult(action, State()) == CsvModel.DataChar(old(State()), row, c)
    {
      var failure := VerifyEnclosedEncloseChar(row.enclosed, row.lastEncloseChar, row.linePos, row.fieldIndex);
      if failure.Some? {
        return Stop(failure.value);
      }
      value := value + [c];
      lastCrChar := false;
      return Proceed(row.(lastEncloseChar := false));
    }

    /**
     * `readRow`: reads characters until a row is complete, the input ends or an exception is
     * thrown; the outcome and the new state are those of `CsvModel.ReadRow`.
     */
    method ReadRow(data: bool) returns (r: RowOutcome)
      requires Valid()
      modifies this, values
      ensures Valid()
      ensures ReadResult(r, State()) == CsvModel.ReadRow(extractor, input, data, old(State()))
    {
      var row := RowStart;
      value := [];
      ghost var goal := CsvModel.ReadRow(extractor, input, data, old(State()));
      ghost var cur := State();
      while true
        invariant Valid() && cur == State()
        invariant ReadRowFrom(extractor, input, data, cur, row) == goal
        decreases Remaining(input, cur)
      {
        var c := Read();
        if c.None? {
          ReadRowFromEnd(extractor, input, data, cur, row);
          r := HandleEof(data, row.enclosed, row.lastEncloseChar, row.linePos, row.fieldIndex);
          return;
        }
        assert State() == cur.(pos := cur.pos + 1) && c.value == input[cur.pos];
        var action := ProcessChar(data, row, c.value);
        ReadRowFromChar(extractor, input, data, cur, row, StepResult(action, State()));
        match action
        case Proceed(next) =>
          row := next;
          cur := State();
        case RowDone =>
          return RowRead;
        case Stop(e) =>
          return RowFailed(e);
      }
    }

    /** `skipRows`: header rows are read without conversion, as `CsvModel.SkipRows` says. */
    method SkipRows() returns (r: RowOutcome)
      requires Valid()
      modifies this, values
      ensures Valid()
      ensures ReadResult(r, State()) == CsvModel.SkipRows(extractor, input, old(State()))
    {
      ghost var goal := CsvModel.SkipRows(extractor, input, State());
      ghost var cur := State();
      while skippedCount < extractor.skipCount
        invariant Valid() && cur == State()
        invariant CsvModel.SkipRows(extractor, input, cur) == goal
        decreases extractor.skipCount - skippedCount
      {
        var row := ReadRow(false);
        ghost var read := State();
        SkipRowsStep(extractor, input, cur, row, read);
        if row.RowRead? {
          skippedCount := skippedCount + 1;
          cur := read.(skippedCount := read.skippedCount + 1);
        } else {
          return row;
        }
      }
      return RowRead;
    }

    /**
     * `tryAdvance`: the next record, with a copy of the values array, or the end of the data, or
     * the exception that stops the stream; the new state is the model's.
     */
    method TryAdvance() returns (a: Advance)
      requires Valid()
      modifies this, values
      ensures Valid()
      ensures AdvanceResult(a, State()) == CsvModel.TryAdvance(extractor, input, old(State()))
    {
      if skippedCount < extractor.skipCount {
        var skipped := SkipRows();
        if skipped.NoRow? {
          return End;
        }
        if skipped.RowFailed? {
          return Failed(skipped.ex);
        }
      }
      var row := ReadRow(true);
      match row
      case RowRead =>
        var record := NewRecord(extractor.metaData, values[..]);
        return Next(record.value);
      case NoRow =>
        return End;
      case RowFailed(e) =>
        return Failed(e);
    }
  }
}
