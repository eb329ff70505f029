/**
 * What the CSV extractor computes, as functions on values: the extractor's configuration, the
 * spliterator's state, one character of `readRow` at a time, the end of the input, whole rows,
 * skipped header rows and `tryAdvance`. The spliterator class is proved against these.
 */
module CsvModel {
  import opened Wrappers
  import opened JavaText
  import opened Exceptions
  import opened CsvExceptions
  import opened Types
  import opened Fields
  import opened MetaData
  import opened Records

  const CR: char := '\r'
  const NL: char := '\n'
  const Enclose: char := '"'

  // ---------------------------------------------------------------------------------------
  // The extractor
  // ---------------------------------------------------------------------------------------

  /**
   * The immutable `CsvExtractor`: the separator, the number of header rows to skip, the
   * character limit of a record, the metadata, and `fields`, the field of each ordinal below
   * `fieldCount` (nothing for an ordinal no field has).
   */
  datatype Extractor = Extractor(
    fieldSeparator: char,
    skipCount: int,
    maxRecordsChars: int,
    metaData: RecordMetaData,
    fieldCount: nat,
    fields: seq<Option<Field>>)

  predicate ValidSeparator(c: char) {
    c != NL && c != CR && c != Enclose
  }

  predicate ValidExtractor(x: Extractor) {
    && ValidSeparator(x.fieldSeparator)
    && MetaData.Valid(x.metaData)
    && x.fieldCount == x.metaData.maxFieldOrdinal + 1
    && |x.fields| == x.fieldCount
    && (forall k :: 0 <= k < |x.fields| && x.fields[k].Some? ==> Fields.Valid(x.fields[k].value))
  }

  /** The field that the table loop leaves in slot `i`: the last one of `list` with ordinal `i`. */
  function FieldAt(list: seq<Field>, i: nat): (r: Option<Field>)
    ensures r.Some? ==> r.value in list && r.value.ordinal == i
    ensures r.None? ==> forall k :: 0 <= k < |list| ==> list[k].ordinal != i
  {
    if list == [] then None
    else if list[|list| - 1].ordinal == i then Some(list[|list| - 1])
    else FieldAt(list[..|list| - 1], i)
  }

  // ---------------------------------------------------------------------------------------
  // The spliterator's state
  // ---------------------------------------------------------------------------------------

  /**
   * The fields of `CsvSpliterator`: how many characters the reader has delivered (`pos`),
   * the flags, the counters, the `StringBuilder` (`value`) and the `values` array.
   */
  datatype Scanner = Scanner(
    pos: nat,
    eof: bool,
    finished: bool,
    lastCrChar: bool,
    skippedCount: nat,
    lineNo: nat,
    recordNo: nat,
    value: string,
    values: seq<Value>)

  /** The local variables of `readRow`. */
  datatype Row = Row(
    enclosed: bool,
    lastEncloseChar: bool,
    recordPos: nat,
    linePos: nat,
    fieldIndex: nat,
    fieldPos: nat)

  const RowStart: Row := Row(false, false, 0, 0, 0, 0)

  /** The spliterator of a fresh `extract` call. */
  function Initial(x: Extractor): Scanner {
    Scanner(0, false, false, false, 0, 0, 0, "", seq(x.fieldCount, _ => Null))
  }

  /** The scanner fits the extractor: one value slot per ordinal. */
  predicate Fits(x: Extractor, s: Scanner) {
    |s.values| == x.fieldCount
  }

  /** `t` differs from `s` at most in what `readRow` changes: not the reader, not the skip count. */
  predicate Kept(s: Scanner, t: Scanner) {
    t.pos == s.pos && t.eof == s.eof && t.skippedCount == s.skippedCount && |t.values| == |s.values|
  }

  // ---------------------------------------------------------------------------------------
  // Errors
  // ---------------------------------------------------------------------------------------

  /** A `CsvExtractionException` at the current record and line, for field `fieldIndex + 1`. */
  function Failure(s: Scanner, fieldIndex: nat, linePos: nat, invalidValue: Option<string>,
                   message: string): Exception {
    CsvExtraction(CsvExtractionException(s.recordNo, s.lineNo, fieldIndex + 1, linePos, invalidValue, message))
  }

  function ExceedsMessage(x: Extractor): string {
    "Record exceeds " + IntToString(x.maxRecordsChars) + " characters"
  }

  const NotEnclosedMessage: string := "Field has not been enclosed properly"

  function NoMoreDataMessage(s: Scanner): string {
    "No more data expected in line " + IntToString(s.lineNo)
  }

  function FieldCountMessage(x: Extractor, fieldIndex: nat): string {
    "Record contains " + IntToString(fieldIndex + 1) + " instead of " + IntToString(x.fieldCount) + " fields"
  }

  function InvalidValueMessage(s: Scanner, fieldIndex: nat, text: string): string {
    "Field " + IntToString(fieldIndex + 1) + " in record " + IntToString(s.recordNo) + " contains invalid value: " + text
  }

  function NullValueMessage(s: Scanner, fieldIndex: nat): string {
    "Non-nullable field " + IntToString(fieldIndex + 1) + " in record " + IntToString(s.recordNo) + " contains null value"
  }

  // ---------------------------------------------------------------------------------------
  // The helpers of readRow
  // ---------------------------------------------------------------------------------------

  /** `incLineNo`: the first character of a line counts a line, and of a record a record. */
  function IncLineNo(s: Scanner, recordPos: nat, linePos: nat): Scanner {
    if linePos == 0 then
      s.(recordNo := if recordPos == 0 then s.recordNo + 1 else s.recordNo, lineNo := s.lineNo + 1)
    else s
  }

  predicate IsEol(c: char) {
    c == CR || c == NL
  }

  /** `isEncloseDelimiter`: a quote inside an enclosure or as the first character of a field. */
  predicate IsEncloseDelimiter(enclosed: bool, fieldPos: nat, c: char) {
    c == Enclose && (enclosed || fieldPos == 1)
  }

  /** `isFieldSeparator`: the separator outside an enclosure or right after its closing quote. */
  predicate IsFieldSeparator(x: Extractor, enclosed: bool, lastEncloseChar: bool, c: char) {
    c == x.fieldSeparator && (!enclosed || lastEncloseChar)
  }

  /**
   * `handleEnclose`: the opening quote adds nothing; a quote right after a pending quote adds
   * one literal quote; any other quote becomes pending. Yields the new buffer and whether a
   * quote is pending.
   */
  function HandleEnclose(value: string, lastEncloseChar: bool, fieldPos: nat): (string, bool) {
    if fieldPos == 1 then (value, false)
    else if lastEncloseChar then (value + [Enclose], false)
    else (value, true)
  }

  /** The buffer is empty or whitespace and no separator was seen: a blank line. */
  predicate IsEmptyLine(s: Scanner, fieldIndex: nat) {
    fieldIndex == 0 && IsBlank(s.value)
  }

  /** `verifyMinFieldCount`: nothing may follow a blank line, and a row needs every slot. */
  function VerifyMinFieldCount(x: Extractor, s: Scanner, linePos: nat, fieldIndex: nat): Option<Exception> {
    if s.finished then Some(Failure(s, fieldIndex, linePos, None, NoMoreDataMessage(s)))
    else if fieldIndex + 1 < x.fieldCount then Some(Failure(s, fieldIndex, linePos, None, FieldCountMessage(x, fieldIndex)))
    else None
  }

  /**
   * `appendFieldValue`: on a data row a declared slot receives its field's conversion of the
   * buffer. A `ConversionException` becomes a `CsvExtractionException` carrying the text, and
   * so does null for a non-nullable field; any other exception passes through. Then the buffer
   * is emptied. Slots beyond the declared ones and header rows convert nothing.
   */
  function AppendFieldValue(x: Extractor, data: bool, s: Scanner, linePos: nat, fieldIndex: nat)
    : (r: Result<Scanner, Exception>)
    requires ValidExtractor(x) && Fits(x, s)
    ensures r.Ok? ==> Fits(x, r.value) && Kept(s, r.value) && r.value.value == []
    ensures r.Ok? ==> r.value == s.(value := [], values := r.value.values)
    ensures r.Ok? ==> forall k :: 0 <= k < |s.values| && k != fieldIndex ==> r.value.values[k] == s.values[k]
  {
    if data && fieldIndex < x.fieldCount && x.fields[fieldIndex].Some? then
      var field := x.fields[fieldIndex].value;
      var text := s.value;
      var converted := Fields.Convert(field, Str(text));
      if converted.Err? && converted.error.ConversionException? then
        Err(Failure(s, fieldIndex, linePos, Some(text), InvalidValueMessage(s, fieldIndex, text)))
      else if converted.Err? then Err(converted.error)
      else if converted.value == Null && !field.nullable then
        Err(Failure(s, fieldIndex, linePos, Some(text), NullValueMessage(s, fieldIndex)))
      else Ok(s.(values := s.values[fieldIndex := converted.value], value := []))
    else Ok(s.(value := []))
  }

  datatype EolAction = EolContinue | EolReset | EolReturn

  datatype EolResult = Eol(action: EolAction, s: Scanner) | EolThrow(s: Scanner, ex: Exception)

  /**
   * `handleEol`: inside an enclosure a line break adds one `\n` (an LF right after a CR adds
   * none) and the row goes on; an LF right after a CR is swallowed; a blank line finishes the
   * data; any other line break ends the row once the field count is verified and the last
   * field appended.
   */
  function HandleEol(x: Extractor, data: bool, s: Scanner, enclosed: bool, lastEncloseChar: bool,
                     linePos: nat, fieldIndex: nat, c: char): (r: EolResult)
    requires ValidExtractor(x) && Fits(x, s)
    ensures Fits(x, r.s) && Kept(s, r.s)
  {
    if enclosed && !lastEncloseChar then
      Eol(EolContinue, s.(value := if !s.lastCrChar || c == CR then s.value + [NL] else s.value, lastCrChar := c == CR))
    else if s.lastCrChar && c == NL then
      Eol(EolReset, s.(value := [], lastCrChar := false))
    else LineEnd(x, data, s.(lastCrChar := c == CR), linePos, fieldIndex)
  }

  /** A line break outside an enclosure that is not the LF of a CRLF: a blank line, or the end of the row. */
  function LineEnd(x: Extractor, data: bool, s: Scanner, linePos: nat, fieldIndex: nat): (r: EolResult)
    requires ValidExtractor(x) && Fits(x, s)
    ensures Fits(x, r.s) && Kept(s, r.s)
  {
    if IsEmptyLine(s, fieldIndex) then Eol(EolReset, s.(finished := true))
    else match VerifyMinFieldCount(x, s, linePos, fieldIndex)
      case Some(e) => EolThrow(s, e)
      case None =>
        match AppendFieldValue(x, data, s, linePos, fieldIndex)
        case Err(e) => EolThrow(s, e)
        case Ok(s2) => Eol(EolReturn, s2)
  }

  /** How one pass of `readRow`'s loop ends: go on with new locals, return `true`, or throw. */
  datatype StepAction = Proceed(row: Row) | RowDone | Stop(ex: Exception)

  datatype StepResult = StepResult(action: StepAction, s: Scanner)

  /**
   * One pass of `readRow`'s loop on the character `c` just read: count the line and record,
   * advance the three positions and refuse a record over the limit, then dispatch on `c`.
   */
  function Step(x: Extractor, data: bool, s: Scanner, row: Row, c: char): (r: StepResult)
    requires ValidExtractor(x) && Fits(x, s)
    ensures Fits(x, r.s) && Kept(s, r.s)
  {
    var s1 := IncLineNo(s, row.recordPos, row.linePos);
    var moved := row.(linePos := row.linePos + 1, fieldPos := row.fieldPos + 1, recordPos := row.recordPos + 1);
    if moved.recordPos > x.maxRecordsChars then
      StepResult(Stop(Failure(s1, row.fieldIndex, moved.linePos, None, ExceedsMessage(x))), s1)
    else Dispatch(x, data, s1, moved, c)
  }

  /** A line break: the loop acts on what `handleEol` says. */
  function LineBreak(x: Extractor, data: bool, s: Scanner, row: Row, c: char): (r: StepResult)
    requires ValidExtractor(x) && Fits(x, s)
    ensures Fits(x, r.s) && Kept(s, r.s)
  {
    match HandleEol(x, data, s, row.enclosed, row.lastEncloseChar, row.linePos, row.fieldIndex, c)
    case EolThrow(s2, e) => StepResult(Stop(e), s2)
    case Eol(EolContinue, s2) => StepResult(Proceed(row.(lastEncloseChar := false, linePos := 0)), s2)
    case Eol(EolReset, s2) => StepResult(Proceed(row.(linePos := 0, fieldPos := 0, recordPos := 0)), s2)
    case Eol(EolReturn, s2) => StepResult(RowDone, s2)
  }

  /**
   * The rest of the pass, with the positions already advanced: a line break, a quote, a
   * separator or a data character.
   */
  function Dispatch(x: Extractor, data: bool, s: Scanner, row: Row, c: char): (r: StepResult)
    requires ValidExtractor(x) && Fits(x, s)
    ensures Fits(x, r.s) && Kept(s, r.s)
  {
    if IsEol(c) then LineBreak(x, data, s, row, c)
    else if IsEncloseDelimiter(row.enclosed, row.fieldPos, c) then Quote(s, row)
    else if IsFieldSeparator(x, row.enclosed, row.lastEncloseChar, c) then Separator(x, data, s, row)
    else DataChar(s, row, c)
  }

  /** A quote that opens a field, or one inside an enclosed field. */
  function Quote(s: Scanner, row: Row): (r: StepResult)
    ensures r.s == s.(lastCrChar := false, value := r.s.value)
  {
    var (v, pending) := HandleEnclose(s.value, row.lastEncloseChar, row.fieldPos);
    StepResult(Proceed(row.(enclosed := row.enclosed || row.fieldPos == 1, lastEncloseChar := pending)),
               s.(lastCrChar := false, value := v))
  }

  /** A separator that ends a field: the field is appended and the next one begins. */
  function Separator(x: Extractor, data: bool, s: Scanner, row: Row): (r: StepResult)
    requires ValidExtractor(x) && Fits(x, s)
    ensures Fits(x, r.s) && Kept(s, r.s)
  {
    match AppendFieldValue(x, data, s, row.linePos, row.fieldIndex)
    case Err(e) => StepResult(Stop(e), s)
    case Ok(s2) =>
      StepResult(Proceed(row.(enclosed := false, lastEncloseChar := false, fieldIndex := row.fieldIndex + 1, fieldPos := 0)),
                 s2.(lastCrChar := false))
  }

  /** Any other character: an error right after a closing quote, otherwise part of the value. */
  function DataChar(s: Scanner, row: Row, c: char): (r: StepResult)
    ensures r.s == s.(lastCrChar := r.s.lastCrChar, value := r.s.value)
  {
    if row.enclosed && row.lastEncloseChar then
      StepResult(Stop(Failure(s, row.fieldIndex, row.linePos, None, NotEnclosedMessage)), s)
    else StepResult(Proceed(row.(lastEncloseChar := false)), s.(value := s.value + [c], lastCrChar := false))
  }

  /** How `readRow` ends: `true`, `false`, or an exception. */
  datatype RowOutcome = RowRead | NoRow | RowFailed(ex: Exception)

  datatype ReadResult = ReadResult(outcome: RowOutcome, s: Scanner)

  /**
   * `handleEof`: a blank last line is no row; otherwise an open enclosure is an error, and the
   * row is verified and its last field appended.
   */
  function HandleEof(x: Extractor, data: bool, s: Scanner, enclosed: bool, lastEncloseChar: bool,
                     linePos: nat, fieldIndex: nat): (r: ReadResult)
    requires ValidExtractor(x) && Fits(x, s)
    ensures Fits(x, r.s) && Kept(s, r.s)
  {
    if IsEmptyLine(s, fieldIndex) then ReadResult(NoRow, s)
    else if enclosed && !lastEncloseChar then
      ReadResult(RowFailed(Failure(s, fieldIndex, linePos, None, NotEnclosedMessage)), s)
    else match VerifyMinFieldCount(x, s, linePos, fieldIndex)
      case Some(e) => ReadResult(RowFailed(e), s)
      case None =>
        match AppendFieldValue(x, data, s, linePos, fieldIndex)
        case Err(e) => ReadResult(RowFailed(e), s)
        case Ok(s2) => ReadResult(RowRead, s2)
  }

  /** The reader has delivered `pos` characters, and reports the end only once all are read. */
  predicate Reading(input: seq<char>, s: Scanner) {
    s.pos <= |input| && (s.eof ==> s.pos == |input|)
  }

  /** How far the reader is from the end: two per character left, one more until EOF is seen. */
  function Remaining(input: seq<char>, s: Scanner): nat
    requires s.pos <= |input|
  {
    2 * (|input| - s.pos) + if s.eof then 0 else 1
  }

  /**
   * The rest of `readRow` from the loop state (`s`, `row`), reading `input` from `s.pos`:
   * `handleEof` once the reader reports the end, otherwise a pass of the loop on the next
   * character.
   */
  function ReadRowFrom(x: Extractor, input: seq<char>, data: bool, s: Scanner, row: Row): (r: ReadResult)
    requires ValidExtractor(x) && Fits(x, s) && Reading(input, s)
    ensures Fits(x, r.s) && Reading(input, r.s) && r.s.skippedCount == s.skippedCount
    decreases Remaining(input, s), 1
  {
    if s.eof || s.pos == |input| then
      HandleEof(x, data, s.(eof := true), row.enclosed, row.lastEncloseChar, row.linePos, row.fieldIndex)
    else NextChar(x, input, data, s, row)
  }

  /** A pass of the loop on the character at `s.pos`, then the rest of `readRow`. */
  function NextChar(x: Extractor, input: seq<char>, data: bool, s: Scanner, row: Row): (r: ReadResult)
    requires ValidExtractor(x) && Fits(x, s) && Reading(input, s) && !s.eof && s.pos < |input|
    ensures Fits(x, r.s) && Reading(input, r.s) && r.s.skippedCount == s.skippedCount
    decreases Remaining(input, s), 0
  {
    Continue(x, input, data, Step(x, data, s.(pos := s.pos + 1), row, input[s.pos]))
  }

  /** How the loop goes on after a pass that ended in `t`. */
  function Continue(x: Extractor, input: seq<char>, data: bool, t: StepResult): (r: ReadResult)
    requires ValidExtractor(x) && Fits(x, t.s) && Reading(input, t.s)
    ensures Fits(x, r.s) && Reading(input, r.s) && r.s.skippedCount == t.s.skippedCount
    decreases Remaining(input, t.s), 2
  {
    match t.action
    case Proceed(row) => ReadRowFrom(x, input, data, t.s, row)
    case RowDone => ReadResult(RowRead, t.s)
    case Stop(e) => ReadResult(RowFailed(e), t.s)
  }

  /** At the end of the input the rest of `readRow` is `handleEof`. */
  lemma {:induction false} ReadRowFromEnd(x: Extractor, input: seq<char>, data: bool, s: Scanner, row: Row)
    requires ValidExtractor(x) && Fits(x, s) && Reading(input, s) && (s.eof || s.pos == |input|)
    ensures ReadRowFrom(x, input, data, s, row)
            == HandleEof(x, data, s.(eof := true), row.enclosed, row.lastEncloseChar, row.linePos, row.fieldIndex)
  {
  }

  /** Before the end the rest of `readRow` is one pass of the loop on the next character, then the rest. */
  lemma {:induction false} ReadRowFromChar(x: Extractor, input: seq<char>, data: bool, s: Scanner, row: Row, t: StepResult)
    requires ValidExtractor(x) && Fits(x, s) && Reading(input, s) && !s.eof && s.pos < |input|
    requires t == Step(x, data, s.(pos := s.pos + 1), row, input[s.pos])
    ensures Fits(x, t.s) && Reading(input, t.s) && Remaining(input, t.s) < Remaining(input, s)
    ensures t.action.Proceed? ==> ReadRowFrom(x, input, data, s, row) == ReadRowFrom(x, input, data, t.s, t.action.row)
    ensures t.action.RowDone? ==> ReadRowFrom(x, input, data, s, row) == ReadResult(RowRead, t.s)
    ensures t.action.Stop? ==> ReadRowFrom(x, input, data, s, row) == ReadResult(RowFailed(t.action.ex), t.s)
  {
    assert ReadRowFrom(x, input, data, s, row) == NextChar(x, input, data, s, row) == Continue(x, input, data, t);
  }

  /** `readRow`: the buffer is emptied and the loop starts with fresh locals. */
  function ReadRow(x: Extractor, input: seq<char>, data: bool, s: Scanner): (r: ReadResult)
    requires ValidExtractor(x) && Fits(x, s) && Reading(input, s)
    ensures Fits(x, r.s) && Reading(input, r.s) && r.s.skippedCount == s.skippedCount
  {
    ReadRowFrom(x, input, data, s.(value := []), RowStart)
  }

  /**
   * `skipRows`: header rows are read without conversion until `skipCount` of them are
   * skipped (outcome `RowRead`, standing for `true`) or the input ends (`NoRow`).
   */
  function SkipRows(x: Extractor, input: seq<char>, s: Scanner): (r: ReadResult)
    requires ValidExtractor(x) && Fits(x, s) && Reading(input, s)
    ensures Fits(x, r.s) && Reading(input, r.s)
    decreases x.skipCount - s.skippedCount
  {
    if s.skippedCount >= x.skipCount then ReadResult(RowRead, s)
    else
      var r := ReadRow(x, input, false, s);
      match r.outcome
      case RowRead => SkipRows(x, input, r.s.(skippedCount := r.s.skippedCount + 1))
      case NoRow => r
      case RowFailed(_) => r
  }

  /** One pass of `skipRows`' loop: a header row is read, then skipping goes on or stops. */
  lemma {:induction false} SkipRowsStep(x: Extractor, input: seq<char>, s: Scanner, outcome: RowOutcome, t: Scanner)
    requires ValidExtractor(x) && Fits(x, s) && Reading(input, s) && s.skippedCount < x.skipCount
    requires ReadResult(outcome, t) == ReadRow(x, input, false, s)
    ensures Fits(x, t) && Reading(input, t)
    ensures outcome.RowRead? ==> SkipRows(x, input, s) == SkipRows(x, input, t.(skippedCount := t.skippedCount + 1))
    ensures !outcome.RowRead? ==> SkipRows(x, input, s) == ReadResult(outcome, t)
  {
  }

  /** What `tryAdvance` hands on: a record, no more records, or an exception. */
  datatype Advance = Next(record: Record) | End | Failed(ex: Exception)

  datatype AdvanceResult = AdvanceResult(advance: Advance, s: Scanner)

  /** Read a data row and wrap a copy of the values in a record. */
  function DataRow(x: Extractor, input: seq<char>, s: Scanner): (r: AdvanceResult)
    requires ValidExtractor(x) && Fits(x, s) && Reading(input, s)
    ensures Fits(x, r.s) && Reading(input, r.s)
  {
    var r := ReadRow(x, input, true, s);
    match r.outcome
    case RowRead => AdvanceResult(Next(NewRecord(x.metaData, r.s.values).value), r.s)
    case NoRow => AdvanceResult(End, r.s)
    case RowFailed(e) => AdvanceResult(Failed(e), r.s)
  }

  /** `tryAdvance`: skip the header rows still to skip, then read one data row. */
  function TryAdvance(x: Extractor, input: seq<char>, s: Scanner): (r: AdvanceResult)
    requires ValidExtractor(x) && Fits(x, s) && Reading(input, s)
    ensures Fits(x, r.s) && Reading(input, r.s)
  {
    if s.skippedCount < x.skipCount then
      var k := SkipRows(x, input, s);
      match k.outcome
      case NoRow => AdvanceResult(End, k.s)
      case RowFailed(e) => AdvanceResult(Failed(e), k.s)
      case RowRead => DataRow(x, input, k.s)
    else DataRow(x, input, s)
  }

  /**
   * The spliterator a stream over `input` calls `tryAdvance` on for the `n`-th time, counting
   * from 0: a fresh one, then each call's state, for as long as no call has thrown.
   */
  function Reached(x: Extractor, input: seq<char>, n: nat): (r: Option<Scanner>)
    requires ValidExtractor(x)
    ensures r.Some? ==> Fits(x, r.value) && Reading(input, r.value)
  {
    if n == 0 then Some(Initial(x))
    else match Reached(x, input, n - 1)
      case None => None
      case Some(s) =>
        var a := TryAdvance(x, input, s);
        if a.advance.Failed? then None else Some(a.s)
  }
}
