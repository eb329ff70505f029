/**
 * Rows written as a CSV writer writes them are read back whole: every value enclosed in
 * quotes with its quotes doubled, the values separated by the extractor's separator and the
 * row ended by a line feed. `readRow` reads such a row, and every declared slot receives its
 * field's conversion of exactly the value written for it.
 */
module CsvRoundTrip {
  import opened Wrappers
  import opened JavaText
  import opened Types
  import opened Fields
  import opened CsvModel
  import opened CsvProperties

  /** A value as it is written in a row: enclosed in quotes, every quote inside doubled. */
  function Quoted(text: string): (r: string)
    ensures |r| == |Escape(text)| + 2
  {
    [Enclose] + Escape(text) + [Enclose]
  }

  /** The values of a row, each quoted, separated by `sep`. */
  function Written(sep: char, texts: seq<string>): string
    requires |texts| >= 1
    decreases |texts|
  {
    if |texts| == 1 then Quoted(texts[0]) else Quoted(texts[0]) + [sep] + Written(sep, texts[1..])
  }

  /** The value holds no CR and no LF: inside quotes a CR would come back as an LF. */
  predicate NoBreaks(text: string) {
    forall k :: 0 <= k < |text| ==> !IsEol(text[k])
  }

  /**
   * Slot `i` takes `text`: it is not a declared slot, or its field converts the text without
   * error and to a value the field allows (no null for a field that is not nullable).
   */
  predicate Accepted(x: Extractor, i: nat, text: string)
    requires ValidExtractor(x)
  {
    i < x.fieldCount && x.fields[i].Some? ==>
      var c := Fields.Convert(x.fields[i].value, Str(text));
      c.Ok? && (c.value != Null || x.fields[i].value.nullable)
  }

  /** Slot `k + i` takes the `i`-th text. */
  predicate AcceptedAt(x: Extractor, k: nat, texts: seq<string>, i: nat)
    requires ValidExtractor(x) && i < |texts|
  {
    Accepted(x, k + i, texts[i])
  }

  /** The slots from `k` on take the texts, one each. */
  predicate AllAccepted(x: Extractor, k: nat, texts: seq<string>)
    requires ValidExtractor(x)
  {
    forall i :: 0 <= i < |texts| ==> AcceptedAt(x, k, texts, i)
  }

  /** What slot `i` holds once it has taken `text`: its field's conversion if the slot is declared, `kept` otherwise. */
  function Converted(x: Extractor, i: nat, text: string, kept: Value): Value
    requires ValidExtractor(x) && Accepted(x, i, text)
  {
    if i < x.fieldCount && x.fields[i].Some? then Fields.Convert(x.fields[i].value, Str(text)).value else kept
  }

  /** The values after slot `i` has taken `text`. */
  function Stored(x: Extractor, i: nat, text: string, values: seq<Value>): (r: seq<Value>)
    requires ValidExtractor(x) && Accepted(x, i, text)
    ensures |r| == |values|
  {
    if i < x.fieldCount && i < |values| && x.fields[i].Some? then
      values[i := Fields.Convert(x.fields[i].value, Str(text)).value]
    else values
  }

  /**
   * Slot `i` once slots `k`, `k + 1`, ... have taken the texts: a declared slot among them
   * holds its field's conversion of its text, every other slot keeps its value.
   */
  function Taken(x: Extractor, k: nat, texts: seq<string>, values: seq<Value>, i: nat): Value
    requires ValidExtractor(x) && AllAccepted(x, k, texts)
    requires i < |values|
  {
    if k <= i < k + |texts| then
      assert k + (i - k) == i && AcceptedAt(x, k, texts, i - k);
      Converted(x, i, texts[i - k], values[i])
    else values[i]
  }

  /** The values after slots `k`, `k + 1`, ... have taken the texts in turn. */
  function StoredAll(x: Extractor, k: nat, texts: seq<string>, values: seq<Value>): (r: seq<Value>)
    requires ValidExtractor(x) && AllAccepted(x, k, texts)
    ensures |r| == |values|
    ensures forall i :: 0 <= i < |values| ==> r[i] == Taken(x, k, texts, values, i)
    decreases |texts|
  {
    if texts == [] then values
    else
      AcceptedRest(x, k, texts, k + 1);
      StoredAll(x, k + 1, texts[1..], Stored(x, k, texts[0], values))
  }

  /** Texts accepted by the slots from `k` on: the first by slot `k`, the rest by the slots from `k + 1` on. */
  lemma AcceptedRest(x: Extractor, k: nat, texts: seq<string>, k': nat)
    requires ValidExtractor(x) && |texts| >= 1 && k' == k + 1
    requires AllAccepted(x, k, texts)
    ensures Accepted(x, k, texts[0])
    ensures AllAccepted(x, k', texts[1..])
  {
    assert AcceptedAt(x, k, texts, 0);
    forall i | 0 <= i < |texts[1..]| ensures AcceptedAt(x, k', texts[1..], i) {
      assert k' + i == k + (i + 1) && texts[1..][i] == texts[i + 1];
      assert AcceptedAt(x, k, texts, i + 1);
    }
  }

  /** An accepted value is stored in its slot and the buffer emptied. */
  lemma AppendStored(x: Extractor, s: Scanner, linePos: nat, i: nat)
    requires ValidExtractor(x) && Fits(x, s) && Accepted(x, i, s.value)
    ensures AppendFieldValue(x, true, s, linePos, i) == Ok(s.(value := [], values := Stored(x, i, s.value, s.values)))
  {
    if i < x.fieldCount && x.fields[i].Some? {
      AppendConverts(x, s, linePos, i);
    } else {
      AppendSkips(x, true, s, linePos, i);
    }
  }

  /** The row position behind a quoted value and its separator: the next field starts. */
  function NextRow(row: Row, text: string): Row {
    Row(false, false, row.recordPos + |Quoted(text)| + 1, row.linePos + |Quoted(text)| + 1, row.fieldIndex + 1, 0)
  }

  /** The state after a quoted value and the character behind it: the positions and the slot set. */
  function AfterField(x: Extractor, s: Scanner, row: Row, text: string): Scanner
    requires ValidExtractor(x) && Accepted(x, row.fieldIndex, text)
  {
    IncLineNo(s, row.recordPos, row.linePos).(pos := s.pos + |Quoted(text)| + 1, lastCrChar := false, value := [],
                                               values := Stored(x, row.fieldIndex, text, s.values))
  }

  /** The state the quoted value leaves, once the character behind it is read, is `AfterField`. */
  lemma AfterFieldState(x: Extractor, s: Scanner, row: Row, text: string)
    requires ValidExtractor(x) && Accepted(x, row.fieldIndex, text)
    ensures var m := |Quoted(text)|;
            var s1 := Consumed(s, row).(pos := s.pos + m, lastCrChar := false, value := text);
            var row1 := Moved(row, m).(enclosed := true, lastEncloseChar := true);
            && Accepted(x, row1.fieldIndex, text)
            && s1.(pos := s1.pos + 1, lastCrChar := false, value := [], values := Stored(x, row1.fieldIndex, text, s1.values))
               == AfterField(x, s, row, text)
            && Row(false, false, row1.recordPos + 1, row1.linePos + 1, row1.fieldIndex + 1, 0)
               == Row(false, false, row.recordPos + m + 1, row.linePos + m + 1, row.fieldIndex + 1, 0)
  {
  }

  /** The quoted value at the start of a field has been read: the closing quote is the last character. */
  lemma {:induction false} QuotedValue(x: Extractor, input: seq<char>, s: Scanner, row: Row, text: string)
    requires ValidExtractor(x) && Fits(x, s) && Reading(input, s) && !s.eof && row.fieldPos == 0 && s.value == []
    requires NoBreaks(text)
    requires s.pos + |Quoted(text)| <= |input| && input[s.pos..s.pos + |Quoted(text)|] == Quoted(text)
    requires row.recordPos + |Quoted(text)| <= x.maxRecordsChars
    ensures ReadRowFrom(x, input, true, s, row)
            == ReadRowFrom(x, input, true, Consumed(s, row).(pos := s.pos + |Quoted(text)|, lastCrChar := false, value := text),
                           Moved(row, |Quoted(text)|).(enclosed := true, lastEncloseChar := true))
  {
    QuotedLaidOut(input, s, text);
    QuotedField(x, input, true, s, row, text, |Quoted(text)|, text);
  }

  /** A quoted value in the input is its quotes around its escaped text, and adds its text to an empty value. */
  lemma {:induction false} QuotedLaidOut(input: seq<char>, s: Scanner, text: string)
    requires s.value == [] && NoBreaks(text)
    requires s.pos + |Quoted(text)| <= |input| && input[s.pos..s.pos + |Quoted(text)|] == Quoted(text)
    ensures |Quoted(text)| == |Escape(text)| + 2 && text == s.value + text
    ensures forall k :: 0 <= k < |text| ==> !IsEol(text[k])
    ensures input[s.pos..s.pos + |Quoted(text)|] == [Enclose] + Escape(text) + [Enclose]
  {
  }

  /** After a closing quote, the separator stores the value and opens the next field. */
  lemma {:induction false} SeparatorAfterQuote(x: Extractor, input: seq<char>, s: Scanner, row: Row, text: string, next: Scanner, nextRow: Row)
    requires NextFits(x, input, s, row) && input[s.pos] == x.fieldSeparator && row.lastEncloseChar && row.linePos > 0
    requires s.value == text && Accepted(x, row.fieldIndex, text)
    requires next == s.(pos := s.pos + 1, lastCrChar := false, value := [], values := Stored(x, row.fieldIndex, text, s.values))
    requires nextRow == Row(false, false, row.recordPos + 1, row.linePos + 1, row.fieldIndex + 1, 0)
    ensures ReadRowFrom(x, input, true, s, row) == ReadRowFrom(x, input, true, next, nextRow)
  {
    AppendStored(x, Consumed(s, row), row.linePos + 1, row.fieldIndex);
    SeparatorStep(x, input, true, s, row);
  }

  /** After a closing quote, the line feed stores the last value and ends the row. */
  lemma {:induction false} LineFeedAfterQuote(x: Extractor, input: seq<char>, s: Scanner, row: Row, text: string)
    requires NextFits(x, input, s, row) && input[s.pos] == NL && row.lastEncloseChar && row.linePos > 0
    requires !s.finished && !s.lastCrChar && row.fieldIndex + 1 >= x.fieldCount
    requires s.value == text && Accepted(x, row.fieldIndex, text) && (row.fieldIndex > 0 || !IsBlank(text))
    ensures ReadRowFrom(x, input, true, s, row)
            == ReadResult(RowRead, s.(pos := s.pos + 1, lastCrChar := false, value := [],
                                      values := Stored(x, row.fieldIndex, text, s.values)))
  {
    AppendStored(x, Consumed(s, row).(lastCrChar := false), row.linePos + 1, row.fieldIndex);
    RowEnd(x, input, true, s, row);
  }

  /** Behind a quoted value the reader stands on the next character, the quote just closed. */
  lemma BehindQuotedValue(x: Extractor, input: seq<char>, s: Scanner, row: Row, text: string)
    requires ValidExtractor(x) && Fits(x, s) && Reading(input, s) && !s.eof && s.value == []
    requires row.fieldPos == 0 && NoBreaks(text)
    requires var m := |Quoted(text)|;
             s.pos + m + 1 <= |input| && input[s.pos..s.pos + m] == Quoted(text)
             && row.recordPos + m + 1 <= x.maxRecordsChars
    ensures var m := |Quoted(text)|;
            var s1 := Consumed(s, row).(pos := s.pos + m, lastCrChar := false, value := text);
            var row1 := Moved(row, m).(enclosed := true, lastEncloseChar := true);
            && NextFits(x, input, s1, row1) && row1.lastEncloseChar && row1.linePos > 0
            && s1.pos == s.pos + m && s1.finished == s.finished && !s1.lastCrChar && s1.value == text
            && row1.fieldIndex == row.fieldIndex
  {
  }

  /** Behind a quoted value, the separator stores it and opens the next field. */
  lemma {:induction false} SeparatorBehindQuote(x: Extractor, input: seq<char>, s: Scanner, row: Row, text: string, s1: Scanner, row1: Row)
    requires ValidExtractor(x) && Fits(x, s) && Reading(input, s) && !s.eof && s.value == []
    requires row.fieldPos == 0 && NoBreaks(text) && Accepted(x, row.fieldIndex, text)
    requires var m := |Quoted(text)|;
             s.pos + m + 1 <= |input| && input[s.pos..s.pos + m] == Quoted(text) && input[s.pos + m] == x.fieldSeparator
             && row.recordPos + m + 1 <= x.maxRecordsChars
    requires s1 == Consumed(s, row).(pos := s.pos + |Quoted(text)|, lastCrChar := false, value := text)
    requires row1 == Moved(row, |Quoted(text)|).(enclosed := true, lastEncloseChar := true)
    ensures var m := |Quoted(text)|;
            ReadRowFrom(x, input, true, s1, row1) == ReadRowFrom(x, input, true, AfterField(x, s, row, text), NextRow(row, text))
  {
    BehindQuotedValue(x, input, s, row, text);
    AfterFieldState(x, s, row, text);
    SeparatorAfterQuote(x, input, s1, row1, text, AfterField(x, s, row, text), NextRow(row, text));
  }

  /** A quoted value followed by the separator: the value is stored and the next field starts. */
  lemma {:induction false} FieldThenSeparator(x: Extractor, input: seq<char>, s: Scanner, row: Row, text: string)
    requires ValidExtractor(x) && Fits(x, s) && Reading(input, s) && !s.eof && s.value == []
    requires row.fieldPos == 0 && NoBreaks(text) && Accepted(x, row.fieldIndex, text)
    requires var m := |Quoted(text)|;
             s.pos + m + 1 <= |input| && input[s.pos..s.pos + m] == Quoted(text) && input[s.pos + m] == x.fieldSeparator
             && row.recordPos + m + 1 <= x.maxRecordsChars
    ensures ReadRowFrom(x, input, true, s, row) == ReadRowFrom(x, input, true, AfterField(x, s, row, text), NextRow(row, text))
  {
    QuotedValue(x, input, s, row, text);
    SeparatorBehindQuote(x, input, s, row, text,
                         Consumed(s, row).(pos := s.pos + |Quoted(text)|, lastCrChar := false, value := text),
                         Moved(row, |Quoted(text)|).(enclosed := true, lastEncloseChar := true));
  }

  /** Behind a quoted value in the last declared slot or beyond, the line feed ends the row. */
  lemma {:induction false} LineFeedBehindQuote(x: Extractor, input: seq<char>, s: Scanner, row: Row, text: string)
    requires ValidExtractor(x) && Fits(x, s) && Reading(input, s) && !s.eof && !s.finished && s.value == []
    requires row.fieldPos == 0 && NoBreaks(text) && Accepted(x, row.fieldIndex, text)
    requires row.fieldIndex + 1 >= x.fieldCount && (row.fieldIndex > 0 || !IsBlank(text))
    requires var m := |Quoted(text)|;
             s.pos + m + 1 <= |input| && input[s.pos..s.pos + m] == Quoted(text) && input[s.pos + m] == NL
             && row.recordPos + m + 1 <= x.maxRecordsChars
    ensures var m := |Quoted(text)|;
            var s1 := Consumed(s, row).(pos := s.pos + m, lastCrChar := false, value := text);
            var row1 := Moved(row, m).(enclosed := true, lastEncloseChar := true);
            ReadRowFrom(x, input, true, s1, row1) == ReadResult(RowRead, AfterField(x, s, row, text))
  {
    var m := |Quoted(text)|;
    var s1 := Consumed(s, row).(pos := s.pos + m, lastCrChar := false, value := text);
    var row1 := Moved(row, m).(enclosed := true, lastEncloseChar := true);
    BehindQuotedValue(x, input, s, row, text);
    AfterFieldState(x, s, row, text);
    LineFeedAfterQuote(x, input, s1, row1, text);
  }

  /** A quoted value followed by a line feed in the last declared slot or beyond: the row is read. */
  lemma {:induction false} FieldThenLineFeed(x: Extractor, input: seq<char>, s: Scanner, row: Row, text: string)
    requires ValidExtractor(x) && Fits(x, s) && Reading(input, s) && !s.eof && !s.finished && s.value == []
    requires row.fieldPos == 0 && NoBreaks(text) && Accepted(x, row.fieldIndex, text)
    requires row.fieldIndex + 1 >= x.fieldCount && (row.fieldIndex > 0 || !IsBlank(text))
    requires var m := |Quoted(text)|;
             s.pos + m + 1 <= |input| && input[s.pos..s.pos + m] == Quoted(text) && input[s.pos + m] == NL
             && row.recordPos + m + 1 <= x.maxRecordsChars
    ensures ReadRowFrom(x, input, true, s, row) == ReadResult(RowRead, AfterField(x, s, row, text))
  {
    QuotedValue(x, input, s, row, text);
    LineFeedBehindQuote(x, input, s, row, text);
  }

  /** A written row of two or more values is its first value, the separator and the rest. */
  lemma {:induction false} WrittenSplit(input: seq<char>, p: nat, sep: char, texts: seq<string>)
    requires |texts| >= 2
    requires p + |Written(sep, texts)| + 1 <= |input| && input[p..p + |Written(sep, texts)| + 1] == Written(sep, texts) + [NL]
    ensures var m := |Quoted(texts[0])|;
            var rest := Written(sep, texts[1..]);
            && |Written(sep, texts)| == m + 1 + |rest|
            && input[p..p + m] == Quoted(texts[0]) && input[p + m] == sep
            && input[p + m + 1..p + m + 1 + |rest| + 1] == rest + [NL]
  {
    var m := |Quoted(texts[0])|;
    var rest := Written(sep, texts[1..]);
    var w := Written(sep, texts) + [NL];
    assert w == Quoted(texts[0]) + [sep] + (rest + [NL]);
    SliceWithin(input, p, w, 0, m);
    SliceWithin(input, p, w, m + 1, |w|);
    assert w[0..m] == Quoted(texts[0]) && w[m] == sep && w[m + 1..|w|] == rest + [NL];
  }

  /** A slice of the part of `a` that reads `w` from `p` on is the same slice of `w`. */
  lemma SliceWithin(a: seq<char>, p: nat, w: seq<char>, i: nat, j: nat)
    requires p + |w| <= |a| && a[p..p + |w|] == w && i <= j <= |w|
    ensures a[p + i..p + j] == w[i..j]
    ensures i < j ==> a[p + i] == w[i]
  {
    forall k | 0 <= k < j - i ensures a[p + i..p + j][k] == w[i..j][k] {
      assert w[i + k] == a[p..p + |w|][i + k];
    }
  }

  /** A written row of one value is that value and the line feed. */
  lemma {:induction false} WrittenLast(input: seq<char>, p: nat, sep: char, texts: seq<string>)
    requires |texts| == 1
    requires p + |Written(sep, texts)| + 1 <= |input| && input[p..p + |Written(sep, texts)| + 1] == Written(sep, texts) + [NL]
    ensures var m := |Quoted(texts[0])|;
            input[p..p + m] == Quoted(texts[0]) && input[p + m] == NL
  {
    var m := |Quoted(texts[0])|;
    var w := Written(sep, texts) + [NL];
    assert w == Quoted(texts[0]) + [NL];
    SliceWithin(input, p, w, 0, m);
    SliceWithin(input, p, w, m, |w|);
    assert w[0..m] == Quoted(texts[0]) && w[m] == NL;
  }

  /**
   * The reader stands at the start of field `row.fieldIndex`, outside any quotes, and ahead
   * of it lie the values `texts`, written as a writer writes them, and a line feed; the
   * values are free of line breaks, accepted by their slots and fill the declared slots.
   */
  predicate WrittenAhead(x: Extractor, input: seq<char>, s: Scanner, row: Row, texts: seq<string>) {
    && ValidExtractor(x) && Fits(x, s) && Reading(input, s) && !s.eof && !s.finished && s.value == []
    && !row.enclosed && !row.lastEncloseChar && row.fieldPos == 0
    && |texts| >= 1 && row.fieldIndex + |texts| >= x.fieldCount
    && (row.fieldIndex + |texts| > 1 || !IsBlank(texts[0]))
    && (forall i :: 0 <= i < |texts| ==> NoBreaks(texts[i])) && AllAccepted(x, row.fieldIndex, texts)
    && s.pos + |Written(x.fieldSeparator, texts)| + 1 <= |input|
    && input[s.pos..s.pos + |Written(x.fieldSeparator, texts)| + 1] == Written(x.fieldSeparator, texts) + [NL]
    && row.recordPos + |Written(x.fieldSeparator, texts)| + 1 <= x.maxRecordsChars
  }

  /** The state once the written values and the line feed ahead have been read, field by field. */
  function RowEndState(x: Extractor, s: Scanner, row: Row, texts: seq<string>): Scanner
    requires ValidExtractor(x) && |texts| >= 1
    requires AllAccepted(x, row.fieldIndex, texts)
    decreases |texts|
  {
    AcceptedRest(x, row.fieldIndex, texts, NextRow(row, texts[0]).fieldIndex);
    if |texts| == 1 then AfterField(x, s, row, texts[0])
    else
      RowEndState(x, AfterField(x, s, row, texts[0]), NextRow(row, texts[0]), texts[1..])
  }

  /** With one value ahead, it is the last field and is followed by the line feed. */
  lemma LastFieldReady(x: Extractor, input: seq<char>, s: Scanner, row: Row, texts: seq<string>)
    requires WrittenAhead(x, input, s, row, texts) && |texts| == 1
    ensures var m := |Quoted(texts[0])|;
            && NoBreaks(texts[0]) && Accepted(x, row.fieldIndex, texts[0])
            && row.fieldIndex + 1 >= x.fieldCount && (row.fieldIndex > 0 || !IsBlank(texts[0]))
            && s.pos + m + 1 <= |input| && input[s.pos..s.pos + m] == Quoted(texts[0]) && input[s.pos + m] == NL
            && row.recordPos + m + 1 <= x.maxRecordsChars
  {
    assert NoBreaks(texts[0]) && AcceptedAt(x, row.fieldIndex, texts, 0);
    WrittenLast(input, s.pos, x.fieldSeparator, texts);
  }

  /** With two or more values ahead, the first is followed by the separator. */
  lemma FirstFieldReady(x: Extractor, input: seq<char>, s: Scanner, row: Row, texts: seq<string>)
    requires WrittenAhead(x, input, s, row, texts) && |texts| >= 2
    ensures var m := |Quoted(texts[0])|;
            && NoBreaks(texts[0]) && Accepted(x, row.fieldIndex, texts[0])
            && s.pos + m + 1 <= |input| && input[s.pos..s.pos + m] == Quoted(texts[0])
            && input[s.pos + m] == x.fieldSeparator && row.recordPos + m + 1 <= x.maxRecordsChars
  {
    assert NoBreaks(texts[0]) && AcceptedAt(x, row.fieldIndex, texts, 0);
    WrittenSplit(input, s.pos, x.fieldSeparator, texts);
  }

  /** With two or more values ahead, the rest lie ahead of the next field once the first is read. */
  lemma NextFieldReady(x: Extractor, input: seq<char>, s: Scanner, row: Row, texts: seq<string>)
    requires WrittenAhead(x, input, s, row, texts) && |texts| >= 2
    ensures Accepted(x, row.fieldIndex, texts[0])
    ensures WrittenAhead(x, input, AfterField(x, s, row, texts[0]), NextRow(row, texts[0]), texts[1..])
  {
    assert NoBreaks(texts[0]) && AcceptedAt(x, row.fieldIndex, texts, 0);
    WrittenSplit(input, s.pos, x.fieldSeparator, texts);
    AcceptedRest(x, row.fieldIndex, texts, NextRow(row, texts[0]).fieldIndex);
    forall i | 0 <= i < |texts[1..]| ensures NoBreaks(texts[1..][i]) {
      assert NoBreaks(texts[i + 1]);
    }
  }

  /** The last value and the line feed ahead are read as the end of the row. */
  lemma {:induction false} LastFieldRead(x: Extractor, input: seq<char>, s: Scanner, row: Row, texts: seq<string>)
    requires WrittenAhead(x, input, s, row, texts) && |texts| == 1
    ensures ReadRowFrom(x, input, true, s, row) == ReadResult(RowRead, RowEndState(x, s, row, texts))
  {
    LastFieldReady(x, input, s, row, texts);
    FieldThenLineFeed(x, input, s, row, texts[0]);
  }

  /** When the rest of the row is read from the next field on, the row is read from this one. */
  lemma {:induction false} FieldAndRestRead(x: Extractor, input: seq<char>, s: Scanner, row: Row, texts: seq<string>)
    requires WrittenAhead(x, input, s, row, texts) && |texts| >= 2
    requires Accepted(x, row.fieldIndex, texts[0])
    requires WrittenAhead(x, input, AfterField(x, s, row, texts[0]), NextRow(row, texts[0]), texts[1..])
    requires ReadRowFrom(x, input, true, AfterField(x, s, row, texts[0]), NextRow(row, texts[0]))
             == ReadResult(RowRead, RowEndState(x, AfterField(x, s, row, texts[0]), NextRow(row, texts[0]), texts[1..]))
    ensures ReadRowFrom(x, input, true, s, row) == ReadResult(RowRead, RowEndState(x, s, row, texts))
  {
    FirstFieldReady(x, input, s, row, texts);
    FieldThenSeparator(x, input, s, row, texts[0]);
  }

  /**
   * From the start of a field, the written values ahead and the line feed are read as the
   * rest of the row: it is read, its slots hold the stored values, and the reader stands
   * behind the line feed.
   */
  lemma {:induction false} FieldsRead(x: Extractor, input: seq<char>, s: Scanner, row: Row, texts: seq<string>)
    requires WrittenAhead(x, input, s, row, texts)
    ensures ReadRowFrom(x, input, true, s, row) == ReadResult(RowRead, RowEndState(x, s, row, texts))
    decreases |texts|
  {
    if |texts| == 1 {
      LastFieldRead(x, input, s, row, texts);
    } else {
      NextFieldReady(x, input, s, row, texts);
      FieldsRead(x, input, AfterField(x, s, row, texts[0]), NextRow(row, texts[0]), texts[1..]);
      FieldAndRestRead(x, input, s, row, texts);
    }
  }

  /**
   * What the end state holds: the reader behind the written values and the line feed, the
   * line and record counted once, the buffer empty, and the slots holding the stored values.
   */
  lemma {:induction false} RowEndStateHolds(x: Extractor, s: Scanner, row: Row, texts: seq<string>)
    requires ValidExtractor(x) && |texts| >= 1
    requires AllAccepted(x, row.fieldIndex, texts)
    ensures var r := RowEndState(x, s, row, texts);
            var t := IncLineNo(s, row.recordPos, row.linePos);
            && r.pos == s.pos + |Written(x.fieldSeparator, texts)| + 1
            && r.eof == s.eof && r.finished == s.finished && !r.lastCrChar && r.value == []
            && r.skippedCount == s.skippedCount && r.lineNo == t.lineNo && r.recordNo == t.recordNo
            && r.values == StoredAll(x, row.fieldIndex, texts, s.values)
  {
    RowEndCounters(x, s, row, texts);
    RowEndValues(x, s, row, texts);
  }

  /** The end state's position, flags and counters. */
  lemma {:induction false} RowEndCounters(x: Extractor, s: Scanner, row: Row, texts: seq<string>)
    requires ValidExtractor(x) && |texts| >= 1
    requires AllAccepted(x, row.fieldIndex, texts)
    ensures var r := RowEndState(x, s, row, texts);
            var t := IncLineNo(s, row.recordPos, row.linePos);
            && r.pos == s.pos + |Written(x.fieldSeparator, texts)| + 1
            && r.eof == s.eof && r.finished == s.finished && !r.lastCrChar && r.value == []
            && r.skippedCount == s.skippedCount && r.lineNo == t.lineNo && r.recordNo == t.recordNo
    decreases |texts|
  {
    AcceptedRest(x, row.fieldIndex, texts, NextRow(row, texts[0]).fieldIndex);
    if |texts| > 1 {
      RowEndCounters(x, AfterField(x, s, row, texts[0]), NextRow(row, texts[0]), texts[1..]);
    }
  }

  /** The end state's slots: each value's conversion in turn. */
  lemma {:induction false} RowEndValues(x: Extractor, s: Scanner, row: Row, texts: seq<string>)
    requires ValidExtractor(x) && |texts| >= 1
    requires AllAccepted(x, row.fieldIndex, texts)
    ensures RowEndState(x, s, row, texts).values == StoredAll(x, row.fieldIndex, texts, s.values)
    decreases |texts|
  {
    AcceptedRest(x, row.fieldIndex, texts, NextRow(row, texts[0]).fieldIndex);
    if |texts| > 1 {
      var s1 := AfterField(x, s, row, texts[0]);
      var row1 := NextRow(row, texts[0]);
      RowEndValues(x, s1, row1, texts[1..]);
      StoredAllStep(x, row.fieldIndex, texts, s.values, row1.fieldIndex, s1.values);
    }
  }

  /** The first text stored, the rest are stored from the next slot on. */
  lemma {:induction false} StoredAllStep(x: Extractor, k: nat, texts: seq<string>, values: seq<Value>, k': nat, values': seq<Value>)
    requires ValidExtractor(x) && |texts| >= 1 && k' == k + 1
    requires AllAccepted(x, k, texts)
    requires Accepted(x, k, texts[0]) && values' == Stored(x, k, texts[0], values)
    requires AllAccepted(x, k', texts[1..])
    ensures StoredAll(x, k, texts, values) == StoredAll(x, k', texts[1..], values')
  {
  }

  /**
   * Round trip of a whole row: values without line breaks, at least as many as the declared
   * slots and each accepted by its slot's field, written quoted and separated and ended by
   * a line feed, are read by `readRow` as one row. Each declared slot holds its field's
   * conversion of the value written for it, the other slots are untouched, the row counts
   * one record and one line, and the reader stands behind the line feed. A row of one blank
   * value is left out: `readRow` takes it for a blank line that ends the data
   * (`QuotedBlankLine`).
   */
  lemma {:induction false} RowRoundTrip(x: Extractor, input: seq<char>, s: Scanner, texts: seq<string>)
    requires ValidExtractor(x) && Fits(x, s) && Reading(input, s) && !s.eof && !s.finished
    requires |texts| >= 1 && |texts| >= x.fieldCount && (|texts| > 1 || !IsBlank(texts[0]))
    requires forall i :: 0 <= i < |texts| ==> NoBreaks(texts[i]) && Accepted(x, i, texts[i])
    requires var n := |Written(x.fieldSeparator, texts)|;
             s.pos + n + 1 <= |input| && input[s.pos..s.pos + n + 1] == Written(x.fieldSeparator, texts) + [NL]
             && n + 1 <= x.maxRecordsChars
    ensures var r := ReadRow(x, input, true, s);
            && r.outcome == RowRead
            && r.s.pos == s.pos + |Written(x.fieldSeparator, texts)| + 1
            && r.s.recordNo == s.recordNo + 1 && r.s.lineNo == s.lineNo + 1
            && r.s.value == [] && !r.s.finished
    ensures forall i :: 0 <= i < x.fieldCount ==>
              ReadRow(x, input, true, s).s.values[i] == Converted(x, i, texts[i], s.values[i])
  {
    forall i | 0 <= i < |texts| ensures AcceptedAt(x, RowStart.fieldIndex, texts, i) {
      assert RowStart.fieldIndex + i == i;
    }
    FieldsRead(x, input, s.(value := []), RowStart, texts);
    RowEndStateHolds(x, s.(value := []), RowStart, texts);
  }

  /** The state behind a quoted blank first value and its line feed: the data is finished, the text left in the buffer. */
  function BlankLineEnd(s: Scanner, row: Row, text: string): Scanner {
    IncLineNo(s, row.recordPos, row.linePos).(pos := s.pos + |Quoted(text)| + 1, lastCrChar := false, value := text,
                                               finished := true)
  }

  /** After a closing quote that ends a blank first value, the line feed ends the data. */
  lemma {:induction false} BlankLineAfterQuote(x: Extractor, input: seq<char>, s: Scanner, row: Row, next: Scanner, nextRow: Row)
    requires NextFits(x, input, s, row) && input[s.pos] == NL && row.lastEncloseChar && !s.lastCrChar
    requires IsEmptyLine(s, row.fieldIndex)
    requires next == Consumed(s, row).(lastCrChar := false, finished := true)
    requires nextRow == row.(linePos := 0, fieldPos := 0, recordPos := 0)
    ensures ReadRowFrom(x, input, true, s, row) == ReadRowFrom(x, input, true, next, nextRow)
  {
    BlankLine(x, input, true, s, row);
  }

  /** Behind a quoted blank first value, the line feed ends the data and the row starts over. */
  lemma {:induction false} BlankLineBehindQuote(x: Extractor, input: seq<char>, s: Scanner, row: Row, text: string, s1: Scanner, row1: Row)
    requires ValidExtractor(x) && Fits(x, s) && Reading(input, s) && !s.eof && s.value == []
    requires row.fieldIndex == 0 && row.fieldPos == 0 && NoBreaks(text) && IsBlank(text)
    requires var m := |Quoted(text)|;
             s.pos + m + 1 <= |input| && input[s.pos..s.pos + m] == Quoted(text) && input[s.pos + m] == NL
             && row.recordPos + m + 1 <= x.maxRecordsChars
    requires s1 == Consumed(s, row).(pos := s.pos + |Quoted(text)|, lastCrChar := false, value := text)
    requires row1 == Moved(row, |Quoted(text)|).(enclosed := true, lastEncloseChar := true)
    ensures ReadRowFrom(x, input, true, s1, row1)
            == ReadRowFrom(x, input, true,
                           BlankLineEnd(s, row, text),
                           Row(true, true, 0, 0, 0, 0))
  {
    BehindQuotedValue(x, input, s, row, text);
    BlankLineAfterQuote(x, input, s1, row1,
                        BlankLineEnd(s, row, text),
                        Row(true, true, 0, 0, 0, 0));
  }

  /**
   * A row holding one quoted blank value is a blank line to `readRow`: the line ends the data
   * and the row starts over, with the text left in the buffer and nothing stored.
   */
  lemma {:induction false} QuotedBlankLine(x: Extractor, input: seq<char>, s: Scanner, row: Row, text: string)
    requires ValidExtractor(x) && Fits(x, s) && Reading(input, s) && !s.eof && s.value == []
    requires row.fieldIndex == 0 && row.fieldPos == 0 && NoBreaks(text) && IsBlank(text)
    requires var m := |Quoted(text)|;
             s.pos + m + 1 <= |input| && input[s.pos..s.pos + m] == Quoted(text) && input[s.pos + m] == NL
             && row.recordPos + m + 1 <= x.maxRecordsChars
    ensures ReadRowFrom(x, input, true, s, row)
            == ReadRowFrom(x, input, true,
                           BlankLineEnd(s, row, text),
                           Row(true, true, 0, 0, 0, 0))
  {
    QuotedValue(x, input, s, row, text);
    BlankLineBehindQuote(x, input, s, row, text,
                         Consumed(s, row).(pos := s.pos + |Quoted(text)|, lastCrChar := false, value := text),
                         Moved(row, |Quoted(text)|).(enclosed := true, lastEncloseChar := true));
  }
}
