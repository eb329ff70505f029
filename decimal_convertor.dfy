/**
 * `StringToBigDecimalConvertor.doConvert`: thousand separators (the instance's own and blanks)
 * are removed from the integer part after their positions have been checked, the decimal
 * separator is rewritten to a point, any other character except digits and a leading sign is
 * rejected, and what remains is read by the `BigDecimal` constructor.
 *
 * The declarative functions (`GroupSizes`, `GroupingValid`, `Ungroup`, `Replace`, `Convert`) say
 * what the conversion computes; the methods work on a character array as the Java code does and
 * are proved to compute exactly that.
 */
module DecimalConvertor {
  import opened Wrappers
  import opened JavaText
  import opened BigDecimals
  import opened Exceptions

  /** The two instances: `DECIMAL_POINT_INSTANCE` (`.` and `,`) and `DECIMAL_COMMA_INSTANCE` (`,` and `.`). */
  datatype DecimalFormat = DecimalPoint | DecimalComma

  function DecimalSeparator(f: DecimalFormat): char {
    if f == DecimalPoint then '.' else ','
  }

  function ThousandSeparator(f: DecimalFormat): char {
    if f == DecimalPoint then ',' else '.'
  }

  /** A character removed as a thousand separator: the instance's own or a blank. */
  predicate IsMark(f: DecimalFormat, c: char) {
    c == ThousandSeparator(f) || c == ' '
  }

  /** `isSigned`: a sign is allowed as the first character only. */
  predicate IsSigned(i: int, c: char) {
    i == 0 && (c == '+' || c == '-')
  }

  predicate IsNonDigit(c: char) {
    c < '0' || c > '9'
  }

  predicate NoMarks(f: DecimalFormat, p: string) {
    forall k :: 0 <= k < |p| ==> !IsMark(f, p[k])
  }

  // ---------------------------------------------------------------------------------------
  // What the conversion computes
  // ---------------------------------------------------------------------------------------

  /**
   * The sizes of the runs of characters between marks, left to right; text without marks is
   * one group.
   */
  function GroupSizes(f: DecimalFormat, p: string): (g: seq<nat>)
    ensures |g| >= 1
  {
    if p == [] then [0]
    else
      var g := GroupSizes(f, p[..|p| - 1]);
      if IsMark(f, p[|p| - 1]) then g + [0]
      else g[..|g| - 1] + [g[|g| - 1] + 1]
  }

  /** The text without its marks. */
  function RemoveMarks(f: DecimalFormat, p: string): (r: string)
    ensures NoMarks(f, r)
    ensures |r| <= |p|
  {
    if p == [] then []
    else RemoveMarks(f, p[..|p| - 1]) + (if IsMark(f, p[|p| - 1]) then [] else [p[|p| - 1]])
  }

  /** 1 when the text starts with a sign, else 0. */
  function Sign(p: string): nat {
    if |p| > 0 && (p[0] == '+' || p[0] == '-') then 1 else 0
  }

  /**
   * Thousand separators are placed correctly: there are none, or the first group holds one to
   * three characters besides a leading sign and every later group exactly three.
   */
  predicate GroupingValid(f: DecimalFormat, p: string) {
    SizesValid(GroupSizes(f, p), Sign(p))
  }

  /** The groups before the last mark are placed correctly (the last group is still open). */
  predicate ClosedGroupsValid(f: DecimalFormat, p: string) {
    ClosedSizesValid(GroupSizes(f, p), Sign(p))
  }

  /** Group sizes `g` of a text whose sign takes `sign` characters are correct. */
  predicate SizesValid(g: seq<nat>, sign: nat) {
    || |g| <= 1
    || (sign + 1 <= g[0] <= sign + 3 && forall q :: 1 <= q < |g| ==> g[q] == 3)
  }

  /** The group sizes `g` are correct except for the last, which is still open. */
  predicate ClosedSizesValid(g: seq<nat>, sign: nat) {
    || |g| <= 1
    || (sign + 1 <= g[0] <= sign + 3 && forall q :: 1 <= q < |g| - 1 ==> g[q] == 3)
  }

  /**
   * What `removeThousandSeparator` computes: the marks before the first decimal separator are
   * removed if they are placed correctly, and nothing from that separator on is touched.
   */
  function Ungroup(f: DecimalFormat, s: string): (r: Result<string, Exception>)
    ensures r.Ok? ==> exists p :: |p| <= IndexOf(s, DecimalSeparator(f)) && NoMarks(f, p)
                                 && r.value == p + s[IndexOf(s, DecimalSeparator(f))..]
    ensures r.Err? ==> r.error == ConversionException(InvalidThousandSeparator, s)
  {
    var k := IndexOf(s, DecimalSeparator(f));
    if GroupingValid(f, s[..k]) then Ok(RemoveMarks(f, s[..k]) + s[k..])
    else Err(ConversionException(InvalidThousandSeparator, s))
  }

  /**
   * `replaceCharacters` rejects the character at `i`: a second decimal separator when that is
   * not a point, or any other character that is neither a digit nor a leading sign.
   */
  predicate Offending(f: DecimalFormat, t: string, i: int)
    requires 0 <= i < |t|
  {
    if t[i] == DecimalSeparator(f) then DecimalSeparator(f) != '.' && DecimalSeparator(f) in t[..i]
    else IsNonDigit(t[i]) && !IsSigned(i, t[i])
  }

  /** The first offending index at or after `from`, or `|t|` when there is none. */
  function FirstOffending(f: DecimalFormat, t: string, from: nat): (i: nat)
    requires from <= |t|
    ensures from <= i <= |t|
    ensures forall j :: from <= j < i ==> !Offending(f, t, j)
    ensures i < |t| ==> Offending(f, t, i)
    decreases |t| - from
  {
    if from == |t| then |t|
    else if Offending(f, t, from) then from
    else FirstOffending(f, t, from + 1)
  }

  /** The text with every decimal separator written as a point. */
  function WithPoint(f: DecimalFormat, t: string): (r: string)
    ensures |r| == |t|
    ensures forall k :: 0 <= k < |t| ==> r[k] == if t[k] == DecimalSeparator(f) then '.' else t[k]
  {
    seq(|t|, k requires 0 <= k < |t| => if t[k] == DecimalSeparator(f) then '.' else t[k])
  }

  /** What `replaceCharacters` computes on the ungrouped text `t` of `source`. */
  function Replace(f: DecimalFormat, source: string, t: string): (r: Result<string, Exception>)
    ensures r.Err? <==> exists i :: 0 <= i < |t| && Offending(f, t, i)
    ensures r.Ok? ==> |r.value| == |t|
    ensures r.Ok? ==> forall k :: 0 <= k < |t| ==> r.value[k] == '.' || !IsNonDigit(r.value[k]) || IsSigned(k, r.value[k])
    ensures r.Err? ==> r.error.ConversionException? && r.error.source == source
                       && (r.error.reason == InvalidDecimalSeparator || r.error.reason == InvalidCharacters)
  {
    var i := FirstOffending(f, t, 0);
    if i == |t| then
      assert forall k :: 0 <= k < |t| ==> !Offending(f, t, k);
      var w := WithPoint(f, t);
      assert forall k :: 0 <= k < |t| ==> w[k] == '.' || !IsNonDigit(w[k]) || IsSigned(k, w[k]) by {
        forall k | 0 <= k < |t| ensures w[k] == '.' || !IsNonDigit(w[k]) || IsSigned(k, w[k]) {
          assert !Offending(f, t, k);
        }
      }
      Ok(w)
    else if t[i] == DecimalSeparator(f) then Err(ConversionException(InvalidDecimalSeparator, source))
    else Err(ConversionException(InvalidCharacters, source))
  }

  /**
   * What `doConvert` computes. A `ConversionException` comes from the two checks; text they
   * let through that the `BigDecimal` constructor refuses (several points for the decimal
   * point instance, a sign or a point alone) is a `NumberFormatException`.
   */
  function Convert(f: DecimalFormat, s: string): (r: Result<Decimal, Exception>)
    ensures r.Err? ==> r.error == NumberFormatException || (r.error.ConversionException? && r.error.source == s)
  {
    var t :- Ungroup(f, s);
    var u :- Replace(f, s, t);
    match Parse(u)
    case None => Err(NumberFormatException)
    case Some(d) => Ok(d)
  }

  // ---------------------------------------------------------------------------------------
  // The conversion on a character array
  // ---------------------------------------------------------------------------------------

  /** `validateLastThousandSeparator` lets the separator (or the end) at position `i` pass. */
  predicate AcceptsSeparator(signed: bool, lastIndex: int, i: int, ignoreMissing: bool) {
    !((lastIndex < 0 && !ignoreMissing && (i == (if signed then 1 else 0) || i > (if signed then 4 else 3)))
      || (lastIndex > 0 && i - lastIndex != 3))
  }

  /** `System.arraycopy(value, i + 1, value, i, len - i)`: `value[i + 1..len + 1]` moves one place left. */
  method ShiftLeft(value: array<char>, i: nat, len: nat)
    requires i <= len < value.Length
    modifies value
    ensures forall q :: 0 <= q < i ==> value[q] == old(value[q])
    ensures forall q :: i <= q < len ==> value[q] == old(value[q + 1])
    ensures forall q :: len <= q < value.Length ==> value[q] == old(value[q])
  {
    var k := i;
    while k < len
      invariant i <= k <= len
      invariant forall q :: 0 <= q < i ==> value[q] == old(value[q])
      invariant forall q :: i <= q < k ==> value[q] == old(value[q + 1])
      invariant forall q :: k <= q < value.Length ==> value[q] == old(value[q])
    {
      value[k] := value[k + 1];
      k := k + 1;
    }
  }

  /** `v[..i]` is the first `j` characters of `source` without marks and `v[i..len]` the rest. */
  ghost predicate Compacted(f: DecimalFormat, source: string, v: seq<char>, i: int, len: int) {
    && 0 <= i <= len <= |source| == |v|
    && v[..i] == RemoveMarks(f, source[..i + (|source| - len)])
    && forall k :: i <= k < len ==> v[k] == source[k + (|source| - len)]
  }

  /**
   * The first `j` characters of `source` hold no decimal separator and their closed groups are
   * valid; `lastIndex` is where the last mark was removed (-1 for none) and `signed` says a
   * leading sign has been seen and no mark since.
   */
  ghost predicate GroupsScanned(f: DecimalFormat, source: string, j: int, i: int, lastIndex: int, signed: bool) {
    && 0 <= j <= IndexOf(source, DecimalSeparator(f))
    && ClosedGroupsValid(f, source[..j])
    && GroupState(GroupSizes(f, source[..j]), j, i, lastIndex, signed, Sign(source))
  }

  /**
   * The scan variables agree with the group sizes `g` of the first `j` characters: before any
   * mark `i` is `j` and `signed` says the text starts with a sign; after one, `lastIndex` is
   * where the last group starts in the array and no sign is pending.
   */
  predicate GroupState(g: seq<nat>, j: int, i: int, lastIndex: int, signed: bool, sign: nat) {
    && |g| >= 1
    && (|g| == 1 ==> lastIndex == -1 && i == j && g[0] == j && signed == (j > 0 && sign == 1))
    && (|g| > 1 ==> 1 <= lastIndex <= i && lastIndex == i - g[|g| - 1] && !signed)
  }

  /** The state of `removeThousandSeparator` after scanning `i` characters of the array. */
  ghost predicate Scanned(f: DecimalFormat, source: string, v: seq<char>, i: int, len: int,
                          lastIndex: int, signed: bool)
  {
    Compacted(f, source, v, i, len) && GroupsScanned(f, source, i + (|source| - len), i, lastIndex, signed)
  }

  /** `r` is what `Ungroup` gives for `source`, the characters kept being the first `r.value` of `v`. */
  ghost predicate Outcome(f: DecimalFormat, source: string, v: seq<char>, r: Result<nat, Exception>) {
    && (r.Ok? <==> Ungroup(f, source).Ok?)
    && (r.Ok? ==> r.value <= |v| && v[..r.value] == Ungroup(f, source).value)
    && (r.Err? ==> r.error == Ungroup(f, source).error)
  }

  /**
   * `removeThousandSeparator`: removes the marks before the first decimal separator in place
   * and returns the new length, or fails when they are misplaced.
   */
  method RemoveThousandSeparator(f: DecimalFormat, source: string, value: array<char>, len0: nat)
    returns (r: Result<nat, Exception>)
    requires value[..] == source && len0 == value.Length
    modifies value
    ensures Outcome(f, source, value[..], r)
  {
    var len := len0;
    var lastIndex := -1;
    var signed := false;
    var i := 0;
    ghost var v := source;
    ScanStart(f, source);
    while i < len
      invariant 0 <= i <= len <= value.Length
      invariant value[..] == v
      invariant Scanned(f, source, v, i, len, lastIndex, signed) == true
      decreases len - i
    {
      var c := value[i];
      if c == DecimalSeparator(f) {
        ScanDecimalSeparator(f, source, v, i, len, lastIndex, signed);
        if !AcceptsSeparator(signed, lastIndex, i, true) {
          return Err(ConversionException(InvalidThousandSeparator, source));
        }
        return Ok(len);
      }
      ghost var v0, i0, len1, lastIndex0, signed0 := v, i, len, lastIndex, signed;
      var removed := false;
      if IsSigned(i, c) {
        signed := true;
      } else if IsMark(f, c) {
        if !AcceptsSeparator(signed, lastIndex, i, false) || len - 1 <= i {
          ScanRejectedMark(f, source, v, i, len, lastIndex, signed);
          return Err(ConversionException(InvalidThousandSeparator, source));
        }
        len := len - 1;
        ShiftLeft(value, i, len);
        lastIndex := i;
        signed := false;
        removed := true;
      }
      i := if removed then i else i + 1;
      v := value[..];
      ScanStep(f, source, v0, v, i0, len1, lastIndex0, signed0, i, len, lastIndex, signed);
    }
    ScanEnd(f, source, v, len, lastIndex, signed);
    if !AcceptsSeparator(signed, lastIndex, len, true) {
      return Err(ConversionException(InvalidThousandSeparator, source));
    }
    return Ok(len);
  }

  /**
   * `replaceCharacters`: rewrites the decimal separator to a point in place, or fails on a
   * second decimal separator or on a character that is neither a digit nor a leading sign.
   */
  method ReplaceCharacters(f: DecimalFormat, source: string, value: array<char>, len: nat)
    returns (failure: Option<Exception>)
    requires len <= value.Length
    modifies value
    ensures failure.None? <==> Replace(f, source, old(value[..len])).Ok?
    ensures failure.None? ==> value[..len] == Replace(f, source, old(value[..len])).value
    ensures failure.Some? ==> failure.value == Replace(f, source, old(value[..len])).error
  {
    ghost var t := value[..len];
    var replaceDecimalSeparator := DecimalSeparator(f) != '.';
    var replacedDecimalSeparator := false;
    var i := 0;
    while i < len
      invariant 0 <= i <= len
      invariant forall k :: 0 <= k < i ==> value[k] == if t[k] == DecimalSeparator(f) then '.' else t[k]
      invariant forall k :: i <= k < len ==> value[k] == t[k]
      invariant forall k :: 0 <= k < i ==> !Offending(f, t, k)
      invariant replacedDecimalSeparator <==> replaceDecimalSeparator && DecimalSeparator(f) in t[..i]
    {
      assert t[..i + 1] == t[..i] + [t[i]];
      var c := value[i];
      if c == DecimalSeparator(f) {
        if replaceDecimalSeparator {
          if replacedDecimalSeparator {
            assert Offending(f, t, i);
            return Some(ConversionException(InvalidDecimalSeparator, source));
          }
          value[i] := '.';
          replacedDecimalSeparator := true;
        }
      } else if IsNonDigit(c) && !IsSigned(i, c) {
        assert Offending(f, t, i);
        return Some(ConversionException(InvalidCharacters, source));
      }
      i := i + 1;
    }
    assert value[..len] == WithPoint(f, t);
    return None;
  }

  /** `doConvert`: the two passes over a copy of the text, then the `BigDecimal` constructor. */
  method DoConvert(f: DecimalFormat, source: string) returns (r: Result<Decimal, Exception>)
    ensures r == Convert(f, source)
  {
    var value := new char[|source|](k requires 0 <= k < |source| => source[k]);
    assert value[..] == source;
    var removed := RemoveThousandSeparator(f, source, value, value.Length);
    if removed.Err? {
      return Err(removed.error);
    }
    var len := removed.value;
    var failure := ReplaceCharacters(f, source, value, len);
    if failure.Some? {
      return Err(failure.value);
    }
    var d := Parse(value[..len]);
    if d.None? {
      return Err(NumberFormatException);
    }
    return Ok(d.value);
  }

  // ---------------------------------------------------------------------------------------
  // Facts about groups
  // ---------------------------------------------------------------------------------------

  lemma {:induction false} GroupsSnoc(f: DecimalFormat, p: string, c: char)
    ensures var g := GroupSizes(f, p);
      GroupSizes(f, p + [c]) == if IsMark(f, c) then g + [0] else g[..|g| - 1] + [g[|g| - 1] + 1]
  {
    assert (p + [c])[..|p|] == p;
  }

  lemma {:induction false} MarksSnoc(f: DecimalFormat, p: string, c: char)
    ensures RemoveMarks(f, p + [c]) == RemoveMarks(f, p) + if IsMark(f, c) then [] else [c]
  {
    assert (p + [c])[..|p|] == p;
  }

  lemma {:induction false} GroupSizesSnoc(f: DecimalFormat, s: string, j: nat)
    requires j < |s|
    ensures var g := GroupSizes(f, s[..j]);
      GroupSizes(f, s[..j + 1]) == if IsMark(f, s[j]) then g + [0] else g[..|g| - 1] + [g[|g| - 1] + 1]
  {
    assert s[..j + 1][..j] == s[..j];
  }

  lemma {:induction false} RemoveMarksSnoc(f: DecimalFormat, s: string, j: nat)
    requires j < |s|
    ensures RemoveMarks(f, s[..j + 1]) == RemoveMarks(f, s[..j]) + if IsMark(f, s[j]) then [] else [s[j]]
  {
    assert s[..j + 1][..j] == s[..j];
  }

  /** Extending a text keeps its closed groups and never lowers the number of groups. */
  lemma {:induction false} GroupsPrefix(f: DecimalFormat, p: string, q: string)
    ensures |GroupSizes(f, p + q)| >= |GroupSizes(f, p)|
    ensures forall k :: 0 <= k < |GroupSizes(f, p)| - 1 ==> GroupSizes(f, p + q)[k] == GroupSizes(f, p)[k]
    decreases |q|
  {
    if q == [] {
      assert p + q == p;
    } else {
      var q' := q[..|q| - 1];
      var c := q[|q| - 1];
      assert p + q == (p + q') + [c];
      GroupsPrefix(f, p, q');
      GroupsSnoc(f, p + q', c);
    }
  }

  /** Once a closed group is misplaced, no continuation of the text is valid. */
  lemma {:induction false} ClosedInvalidStaysInvalid(f: DecimalFormat, p: string, q: string)
    requires !ClosedGroupsValid(f, p)
    ensures !GroupingValid(f, p + q)
  {
    GroupsPrefix(f, p, q);
    var g := GroupSizes(f, p);
    var h := GroupSizes(f, p + q);
    assert |p| > 0;
    assert Sign(p + q) == Sign(p) by {
      assert (p + q)[0] == p[0];
    }
    assert h[0] == g[0];
    if g[0] < Sign(p) + 1 || g[0] > Sign(p) + 3 {
    } else {
      var k :| 1 <= k < |g| - 1 && g[k] != 3;
      assert h[k] == g[k];
    }
  }

  /** Text without marks is a single group. */
  lemma {:induction false} NoMarksGroups(f: DecimalFormat, p: string)
    requires NoMarks(f, p)
    ensures GroupSizes(f, p) == [|p|]
    decreases |p|
  {
    if p != [] {
      var p' := p[..|p| - 1];
      NoMarksGroups(f, p');
      assert p == p' + [p[|p| - 1]];
      GroupsSnoc(f, p', p[|p| - 1]);
    }
  }

  /** Text without marks loses nothing when the marks are removed. */
  lemma {:induction false} NoMarksKept(f: DecimalFormat, p: string)
    requires NoMarks(f, p)
    ensures RemoveMarks(f, p) == p
    decreases |p|
  {
    if p != [] {
      var p' := p[..|p| - 1];
      NoMarksKept(f, p');
      assert p == p' + [p[|p| - 1]];
      MarksSnoc(f, p', p[|p| - 1]);
    }
  }

  /** A mark followed by text without marks opens one new group holding that text. */
  lemma {:induction false} AppendGroupSizes(f: DecimalFormat, p: string, m: char, y: string)
    requires IsMark(f, m) && NoMarks(f, y)
    ensures GroupSizes(f, p + [m] + y) == GroupSizes(f, p) + [|y|]
    decreases |y|
  {
    if y == [] {
      GroupsSnoc(f, p, m);
      assert p + [m] + y == p + [m];
    } else {
      var y' := y[..|y| - 1];
      var c := y[|y| - 1];
      AppendGroupSizes(f, p, m, y');
      assert p + [m] + y == (p + [m] + y') + [c];
      GroupsSnoc(f, p + [m] + y', c);
    }
  }

  /** The marks of `p`, a mark and text without marks: only the marks go. */
  lemma {:induction false} AppendGroupMarks(f: DecimalFormat, p: string, m: char, y: string)
    requires IsMark(f, m) && NoMarks(f, y)
    ensures RemoveMarks(f, p + [m] + y) == RemoveMarks(f, p) + y
    decreases |y|
  {
    if y == [] {
      assert (p + [m])[..|p|] == p && p + [m] + y == p + [m];
    } else {
      var y' := y[..|y| - 1];
      var s := p + [m] + y;
      AppendGroupMarks(f, p, m, y');
      assert s[..|s| - 1] == p + [m] + y';
      assert y == y' + [y[|y| - 1]];
    }
  }

  // ---------------------------------------------------------------------------------------
  // Steps of removeThousandSeparator
  // ---------------------------------------------------------------------------------------

  /** A kept character extends the compacted prefix. */
  lemma {:induction false} CompactPlain(f: DecimalFormat, source: string, v: seq<char>, i: int, len: int)
    requires Compacted(f, source, v, i, len) && i < len && !IsMark(f, v[i])
    ensures Compacted(f, source, v, i + 1, len)
  {
    var j := i + (|source| - len);
    RemoveMarksSnoc(f, source, j);
    assert v[..i + 1] == v[..i] + [v[i]];
  }

  /** A removed mark leaves the compacted prefix as it is and shifts the rest left. */
  lemma {:induction false} CompactMark(f: DecimalFormat, source: string, v: seq<char>, w: seq<char>, i: int, len: int)
    requires Compacted(f, source, v, i, len) && i < len - 1 && IsMark(f, v[i])
    requires |w| == |v|
    requires forall k :: 0 <= k < i ==> w[k] == v[k]
    requires forall k :: i <= k < len - 1 ==> w[k] == v[k + 1]
    ensures Compacted(f, source, w, i, len - 1)
  {
    var j := i + (|source| - len);
    RemoveMarksSnoc(f, source, j);
    assert w[..i] == v[..i];
  }

  /** A character that is neither a mark nor the decimal separator extends the last group. */
  lemma {:induction false} GroupsPlain(f: DecimalFormat, source: string, j: int, i: int, lastIndex: int, signed: bool)
    requires GroupsScanned(f, source, j, i, lastIndex, signed) && j < |source|
    requires source[j] != DecimalSeparator(f) && !IsMark(f, source[j])
    ensures GroupsScanned(f, source, j + 1, i + 1, lastIndex, signed || IsSigned(i, source[j]))
  {
    GroupSizesSnoc(f, source, j);
    PlainGroups(f, source, j, i, lastIndex, signed);
  }

  /** The groups after a character that extends the last group. */
  lemma {:induction false} PlainGroups(f: DecimalFormat, source: string, j: int, i: int, lastIndex: int, signed: bool)
    requires GroupsScanned(f, source, j, i, lastIndex, signed) && j < |source|
    requires source[j] != DecimalSeparator(f) && !IsMark(f, source[j])
    requires GroupSizes(f, source[..j + 1]) == GroupSizes(f, source[..j])[..|GroupSizes(f, source[..j])| - 1] + [GroupSizes(f, source[..j])[|GroupSizes(f, source[..j])| - 1] + 1]
    ensures ClosedGroupsValid(f, source[..j + 1])
    ensures GroupState(GroupSizes(f, source[..j + 1]), j + 1, i + 1, lastIndex, signed || IsSigned(i, source[j]), Sign(source))
  {
    PrefixSigns(source, j);
    PlainStep(GroupSizes(f, source[..j]), GroupSizes(f, source[..j + 1]), j, i, lastIndex, signed, Sign(source), source[j]);
  }

  /** A well-placed mark closes the last group and opens an empty one. */
  lemma {:induction false} GroupsMark(f: DecimalFormat, source: string, j: int, i: int, lastIndex: int, signed: bool)
    requires GroupsScanned(f, source, j, i, lastIndex, signed) && j < |source|
    requires IsMark(f, source[j]) && AcceptsSeparator(signed, lastIndex, i, false)
    ensures GroupsScanned(f, source, j + 1, i, i, false)
  {
    var g := GroupSizes(f, source[..j]);
    var g' := GroupSizes(f, source[..j + 1]);
    assert g' == g + [0] by {
      GroupSizesSnoc(f, source, j);
    }
    PrefixSigns(source, j);
    MarkStep(g, g', j, i, lastIndex, signed, Sign(source));
  }

  /**
   * After the first character the prefixes of a text have its sign, and the closed groups of
   * the first `j` characters are valid for that sign.
   */
  lemma {:induction false} PrefixSigns(source: string, j: int)
    requires 0 <= j < |source|
    ensures Sign(source[..j + 1]) == Sign(source)
    ensures j > 0 ==> Sign(source[..j]) == Sign(source)
  {
    assert source[..j + 1][0] == source[0];
    if j > 0 {
      assert source[..j][0] == source[0];
    }
  }

  /** One more character in the last group keeps the scan variables in step. */
  lemma {:induction false} PlainStep(g: seq<nat>, g': seq<nat>, j: int, i: int, lastIndex: int, signed: bool, sign: nat,
                                     c: char)
    requires GroupState(g, j, i, lastIndex, signed, sign)
    requires |g| > 1 ==> ClosedSizesValid(g, sign)
    requires j == 0 ==> (sign == 1 <==> c == '+' || c == '-')
    requires g' == g[..|g| - 1] + [g[|g| - 1] + 1]
    ensures ClosedSizesValid(g', sign)
    ensures GroupState(g', j + 1, i + 1, lastIndex, signed || IsSigned(i, c), sign)
  {
    assert forall q :: 0 <= q < |g| - 1 ==> g'[q] == g[q];
  }

  /** A mark the scan accepts closes a correct group. */
  lemma {:induction false} MarkStep(g: seq<nat>, g': seq<nat>, j: int, i: int, lastIndex: int, signed: bool, sign: nat)
    requires GroupState(g, j, i, lastIndex, signed, sign) && sign <= 1
    requires |g| > 1 ==> ClosedSizesValid(g, sign)
    requires AcceptsSeparator(signed, lastIndex, i, false)
    requires g' == g + [0]
    ensures ClosedSizesValid(g', sign)
    ensures GroupState(g', j + 1, i, i, false, sign)
  {
    assert forall q :: 0 <= q < |g| ==> g'[q] == g[q];
  }

  /** A mark the scan refuses closes a misplaced group. */
  lemma {:induction false} MarkRejectStep(g: seq<nat>, g': seq<nat>, j: int, i: int, lastIndex: int, signed: bool,
                                          sign: nat)
    requires GroupState(g, j, i, lastIndex, signed, sign) && sign <= 1
    requires !AcceptsSeparator(signed, lastIndex, i, false)
    requires g' == g + [0]
    ensures !ClosedSizesValid(g', sign)
  {
    if |g| > 1 {
      assert g'[|g| - 1] == g[|g| - 1];
    }
  }

  /** At the end of the integer part the last group decides. */
  lemma {:induction false} FinalStep(g: seq<nat>, j: int, i: int, lastIndex: int, signed: bool, sign0: nat, sign: nat)
    requires GroupState(g, j, i, lastIndex, signed, sign0)
    requires ClosedSizesValid(g, sign)
    ensures SizesValid(g, sign) <==> AcceptsSeparator(signed, lastIndex, i, true)
  {
  }

  /** A misplaced mark, or a mark at the very end, makes the whole text invalid. */
  lemma {:induction false} GroupsRejectedMark(f: DecimalFormat, source: string, j: int, i: int,
                                              lastIndex: int, signed: bool)
    requires GroupsScanned(f, source, j, i, lastIndex, signed) && j < |source|
    requires IsMark(f, source[j])
    requires !AcceptsSeparator(signed, lastIndex, i, false) || j == |source| - 1
    ensures Ungroup(f, source) == Err(ConversionException(InvalidThousandSeparator, source))
  {
    MarkMisplacesGroups(f, source, j, i, lastIndex, signed);
  }

  /** The integer part of a text with such a mark is not grouped correctly. */
  lemma {:induction false} MarkMisplacesGroups(f: DecimalFormat, source: string, j: int, i: int,
                                               lastIndex: int, signed: bool)
    requires GroupsScanned(f, source, j, i, lastIndex, signed) && j < |source|
    requires IsMark(f, source[j])
    requires !AcceptsSeparator(signed, lastIndex, i, false) || j == |source| - 1
    ensures !GroupingValid(f, source[..IndexOf(source, DecimalSeparator(f))])
  {
    var k := IndexOf(source, DecimalSeparator(f));
    assert k >= j + 1;
    if !AcceptsSeparator(signed, lastIndex, i, false) {
      MarkClosesBadGroup(f, source, j, i, lastIndex, signed);
      PrefixInvalid(f, source, j + 1, k);
    } else {
      MarkAtEnd(f, source, j);
      assert source[..k] == source;
    }
  }

  /** A mark the scan refuses closes a misplaced group. */
  lemma {:induction false} MarkClosesBadGroup(f: DecimalFormat, source: string, j: int, i: int,
                                              lastIndex: int, signed: bool)
    requires GroupsScanned(f, source, j, i, lastIndex, signed) && j < |source|
    requires IsMark(f, source[j]) && !AcceptsSeparator(signed, lastIndex, i, false)
    ensures !ClosedGroupsValid(f, source[..j + 1])
  {
    var g := GroupSizes(f, source[..j]);
    var g' := GroupSizes(f, source[..j + 1]);
    assert g' == g + [0] by {
      GroupSizesSnoc(f, source, j);
    }
    PrefixSigns(source, j);
    MarkRejectStep(g, g', j, i, lastIndex, signed, Sign(source));
  }

  /** A mark as the last character of a text leaves an empty last group. */
  lemma {:induction false} MarkAtEnd(f: DecimalFormat, source: string, j: int)
    requires 0 <= j == |source| - 1 && IsMark(f, source[j]) && j <= IndexOf(source, DecimalSeparator(f))
    ensures IndexOf(source, DecimalSeparator(f)) == |source|
    ensures !GroupingValid(f, source)
  {
    var g := GroupSizes(f, source);
    assert |g| > 1 && g[|g| - 1] == 0 by {
      assert source == source[..j] + [source[j]];
      GroupsSnoc(f, source[..j], source[j]);
    }
  }

  /** A text whose first `n` characters have a misplaced closed group is invalid up to any `k` from `n`. */
  lemma {:induction false} PrefixInvalid(f: DecimalFormat, s: string, n: int, k: int)
    requires 0 <= n <= k <= |s| && !ClosedGroupsValid(f, s[..n])
    ensures !GroupingValid(f, s[..k])
  {
    assert s[..k] == s[..n] + s[n..k];
    ClosedInvalidStaysInvalid(f, s[..n], s[n..k]);
  }

  lemma ScanStart(f: DecimalFormat, source: string)
    ensures Scanned(f, source, source, 0, |source|, -1, false)
  {
    assert source[..0] == [];
  }

  lemma {:induction false} ScanPlain(f: DecimalFormat, source: string, v: seq<char>, i: int, len: int,
                                     lastIndex: int, signed: bool, c: char)
    requires Scanned(f, source, v, i, len, lastIndex, signed) && i < len && c == v[i]
    requires c != DecimalSeparator(f) && (IsSigned(i, c) || !IsMark(f, c))
    ensures Scanned(f, source, v, i + 1, len, lastIndex, signed || IsSigned(i, c))
  {
    var j := i + (|source| - len);
    assert v[i] == source[j];
    CompactPlain(f, source, v, i, len);
    GroupsPlain(f, source, j, i, lastIndex, signed);
  }

  lemma {:induction false} ScanMark(f: DecimalFormat, source: string, v: seq<char>, w: seq<char>, i: int, len: int,
                                    newLen: int, lastIndex: int, signed: bool)
    requires Scanned(f, source, v, i, len, lastIndex, signed) && i < newLen && newLen == len - 1
    requires IsMark(f, v[i]) && AcceptsSeparator(signed, lastIndex, i, false)
    requires |w| == |v|
    requires forall k :: 0 <= k < i ==> w[k] == v[k]
    requires forall k :: i <= k < newLen ==> w[k] == v[k + 1]
    ensures Scanned(f, source, w, i, newLen, i, false)
  {
    var j := i + (|source| - len);
    assert v[i] == source[j];
    CompactMark(f, source, v, w, i, len);
    GroupsMark(f, source, j, i, lastIndex, signed);
  }

  /** One character before the decimal separator, other than a misplaced mark, keeps the scan state. */
  lemma {:induction false} ScanStep(f: DecimalFormat, source: string, v: seq<char>, w: seq<char>, i: int, len: int,
                                    lastIndex: int, signed: bool, i': int, len': int, lastIndex': int, signed': bool)
    requires Scanned(f, source, v, i, len, lastIndex, signed) && i < len && v[i] != DecimalSeparator(f)
    requires IsSigned(i, v[i]) || !IsMark(f, v[i]) ==>
      w == v && i' == i + 1 && len' == len && lastIndex' == lastIndex && signed' == (signed || IsSigned(i, v[i]))
    requires !IsSigned(i, v[i]) && IsMark(f, v[i]) ==>
      && AcceptsSeparator(signed, lastIndex, i, false) && i < len - 1
      && i' == i && len' == len - 1 && lastIndex' == i && !signed' && |w| == |v|
      && (forall k :: 0 <= k < i ==> w[k] == v[k])
      && (forall k :: i <= k < len' ==> w[k] == v[k + 1])
    ensures Scanned(f, source, w, i', len', lastIndex', signed')
  {
    if IsSigned(i, v[i]) || !IsMark(f, v[i]) {
      ScanPlain(f, source, v, i, len, lastIndex, signed, v[i]);
    } else {
      ScanMark(f, source, v, w, i, len, len', lastIndex, signed);
    }
  }

  lemma {:induction false} ScanRejectedMark(f: DecimalFormat, source: string, v: seq<char>, i: int, len: int,
                                            lastIndex: int, signed: bool)
    requires Scanned(f, source, v, i, len, lastIndex, signed) && i < len
    requires IsMark(f, v[i])
    requires !AcceptsSeparator(signed, lastIndex, i, false) || len - 1 <= i
    ensures Outcome(f, source, v, Err(ConversionException(InvalidThousandSeparator, source)))
  {
    var j := i + (|source| - len);
    assert v[i] == source[j];
    GroupsRejectedMark(f, source, j, i, lastIndex, signed);
  }

  /** At the decimal separator the scan checks the last group and stops. */
  lemma {:induction false} ScanDecimalSeparator(f: DecimalFormat, source: string, v: seq<char>, i: int, len: int,
                                                lastIndex: int, signed: bool)
    requires Scanned(f, source, v, i, len, lastIndex, signed) && i < len
    requires v[i] == DecimalSeparator(f)
    ensures Outcome(f, source, v, if AcceptsSeparator(signed, lastIndex, i, true) then Ok(len)
                                  else Err(ConversionException(InvalidThousandSeparator, source)))
  {
    var j := i + (|source| - len);
    assert IndexOf(source, DecimalSeparator(f)) == j by {
      assert v[i] == source[j];
    }
    assert v[..len] == v[..i] + source[j..] by {
      assert v[i..len] == source[j..];
      assert v[..len] == v[..i] + v[i..len];
    }
  }

  /** When the whole text has been scanned only the last group is left to check. */
  lemma {:induction false} ScanEnd(f: DecimalFormat, source: string, v: seq<char>, len: int,
                                   lastIndex: int, signed: bool)
    requires Scanned(f, source, v, len, len, lastIndex, signed)
    ensures Outcome(f, source, v, if AcceptsSeparator(signed, lastIndex, len, true) then Ok(len)
                                  else Err(ConversionException(InvalidThousandSeparator, source)))
  {
    assert source[..|source|] == source;
    assert IndexOf(source, DecimalSeparator(f)) == |source|;
    assert source[|source|..] == [];
  }
}
