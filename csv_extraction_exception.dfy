/**
 * `CsvExtractionException`: the error raised for malformed CSV content, carrying the position
 * at which extraction stopped. The datatype's constructor and destructors are the Java
 * constructor and getters.
 */
module CsvExceptions {
  import opened Wrappers
  import opened JavaText

  const ClassName: string := "eu.volsch.stockmountain.extraction.csv.CsvExtractionException"

  datatype CsvExtractionException = CsvExtractionException(
    recordNo: int,
    lineNo: int,
    fieldNo: int,
    linePos: int,
    invalidValue: Option<string>,
    message: string)

  /** `w` occurs in `s` starting at index `i`. */
  predicate OccursAt(w: string, s: string, i: int) {
    0 <= i && i + |w| <= |s| && s[i..i + |w|] == w
  }

  /** The quoted invalid value, or nothing when there is none. */
  function QuotedValue(v: Option<string>): string {
    match v
    case None => ""
    case Some(s) => " with invalid value \"" + s + "\""
  }

  /**
   * `toString`: the class name, the record, line, field and position numbers with their
   * labels, the invalid value in double quotes when there is one, and the message after
   * `" : "`.
   */
  function ToString(e: CsvExtractionException): (r: string)
    ensures OccursAt(ClassName + ":", r, 0)
    ensures OccursAt(" : " + e.message, r, |r| - |e.message| - 3)
  {
    var h := ClassName + ":";
    var a := " at record number " + IntToString(e.recordNo);
    var b := " at line number " + IntToString(e.lineNo);
    var c := " at field number " + IntToString(e.fieldNo);
    var d := " at line position " + IntToString(e.linePos);
    var q := QuotedValue(e.invalidValue);
    var m := " : " + e.message;
    Layout(h, a, b, c, d, q, m);
    h + a + b + c + d + q + m
  }

  /** Where each of seven concatenated pieces starts. */
  lemma {:induction false} Layout(h: string, a: string, b: string, c: string, d: string, q: string, m: string)
    ensures var r := h + a + b + c + d + q + m;
      && OccursAt(h, r, 0)
      && OccursAt(a, r, |h|)
      && OccursAt(b, r, |h| + |a|)
      && OccursAt(c, r, |h| + |a| + |b|)
      && OccursAt(d, r, |h| + |a| + |b| + |c|)
      && OccursAt(q + m, r, |h| + |a| + |b| + |c| + |d|)
      && OccursAt(m, r, |r| - |m|)
  {
    var r := h + a + b + c + d + q + m;
    Piece(h, a, b, c, d, q, m, 0, h);
    Piece(h, a, b, c, d, q, m, |h|, a);
    Piece(h, a, b, c, d, q, m, |h| + |a|, b);
    Piece(h, a, b, c, d, q, m, |h| + |a| + |b|, c);
    Piece(h, a, b, c, d, q, m, |h| + |a| + |b| + |c|, d);
    Piece(h, a, b, c, d, q, m, |h| + |a| + |b| + |c| + |d|, q + m);
    Piece(h, a, b, c, d, q, m, |r| - |m|, m);
  }

  /** A piece of the concatenation, checked character by character. */
  lemma {:induction false} Piece(h: string, a: string, b: string, c: string, d: string, q: string, m: string,
                                 i: nat, w: string)
    requires || (i == 0 && w == h)
             || (i == |h| && w == a)
             || (i == |h| + |a| && w == b)
             || (i == |h| + |a| + |b| && w == c)
             || (i == |h| + |a| + |b| + |c| && w == d)
             || (i == |h| + |a| + |b| + |c| + |d| && w == q + m)
             || (i == |h| + |a| + |b| + |c| + |d| + |q| && w == m)
    ensures OccursAt(w, h + a + b + c + d + q + m, i)
  {
    var r := h + a + b + c + d + q + m;
    assert |r| == |h| + |a| + |b| + |c| + |d| + |q| + |m|;
    forall k | 0 <= k < |w|
      ensures r[i + k] == w[k]
    {
    }
    assert r[i..i + |w|] == w;
  }

  /**
   * The text names the record, line, field and position numbers with their labels, in this
   * order (what the extractor's tests look for in it).
   */
  lemma {:induction false} ToStringListsCounters(e: CsvExtractionException)
    ensures exists i1, i2, i3, i4 ::
      && i1 < i2 < i3 < i4
      && OccursAt(" at record number " + IntToString(e.recordNo), ToString(e), i1)
      && OccursAt(" at line number " + IntToString(e.lineNo), ToString(e), i2)
      && OccursAt(" at field number " + IntToString(e.fieldNo), ToString(e), i3)
      && OccursAt(" at line position " + IntToString(e.linePos), ToString(e), i4)
  {
    InOrder(ToString(e), ClassName + ":", " at record number " + IntToString(e.recordNo),
            " at line number " + IntToString(e.lineNo), " at field number " + IntToString(e.fieldNo),
            " at line position " + IntToString(e.linePos), QuotedValue(e.invalidValue), " : " + e.message);
  }

  /** The four middle pieces of a concatenation occur in it in order. */
  lemma {:induction false} InOrder(r: string, h: string, a: string, b: string, c: string, d: string, q: string,
                                   m: string)
    requires r == h + a + b + c + d + q + m
    requires |a| > 0 && |b| > 0 && |c| > 0
    ensures exists i1, i2, i3, i4 ::
      && i1 < i2 < i3 < i4
      && OccursAt(a, r, i1) && OccursAt(b, r, i2) && OccursAt(c, r, i3) && OccursAt(d, r, i4)
  {
    Layout(h, a, b, c, d, q, m);
    var i1, i2, i3, i4 := |h|, |h| + |a|, |h| + |a| + |b|, |h| + |a| + |b| + |c|;
    assert i1 < i2 < i3 < i4;
  }

  /**
   * Without an invalid value the message follows the counters directly; with one, the value
   * follows them in double quotes and then the message.
   */
  lemma {:induction false} ToStringQuotesInvalidValue(e: CsvExtractionException)
    ensures OccursAt(QuotedValue(e.invalidValue) + (" : " + e.message), ToString(e),
                     |ClassName| + 1 + PositionLength(e))
    ensures e.invalidValue.None? ==> |ToString(e)| == |ClassName| + 1 + PositionLength(e) + 3 + |e.message|
  {
    var h := ClassName + ":";
    var a := " at record number " + IntToString(e.recordNo);
    var b := " at line number " + IntToString(e.lineNo);
    var c := " at field number " + IntToString(e.fieldNo);
    var d := " at line position " + IntToString(e.linePos);
    assert |h| + |a| + |b| + |c| + |d| == |ClassName| + 1 + PositionLength(e);
    Tail(ToString(e), h, a, b, c, d, QuotedValue(e.invalidValue), " : " + e.message);
  }

  /** The last two pieces of a concatenation follow the first five. */
  lemma {:induction false} Tail(r: string, h: string, a: string, b: string, c: string, d: string, q: string,
                                m: string)
    requires r == h + a + b + c + d + q + m
    ensures OccursAt(q + m, r, |h| + |a| + |b| + |c| + |d|)
    ensures |r| == |h| + |a| + |b| + |c| + |d| + |q| + |m|
  {
    Layout(h, a, b, c, d, q, m);
  }

  /** The length of the labelled counters. */
  function PositionLength(e: CsvExtractionException): nat {
    |" at record number " + IntToString(e.recordNo)|
    + |" at line number " + IntToString(e.lineNo)|
    + |" at field number " + IntToString(e.fieldNo)|
    + |" at line position " + IntToString(e.linePos)|
  }
}
