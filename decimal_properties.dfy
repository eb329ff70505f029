/**
 * What `StringToBigDecimalConvertor` accepts and what it makes of it: a number written with an
 * optional sign, its integer digits grouped by threes (or not grouped at all) and an optional
 * fraction after the decimal separator converts to exactly that number, and misplaced
 * separators are refused.
 */
module DecimalProperties {
  import opened Wrappers
  import opened JavaText
  import opened BigDecimals
  import opened Exceptions
  import opened DecimalConvertor

  /** Digits with the mark `m` between every three of them, counted from the right. */
  function Group(m: char, d: string): (r: string)
    ensures |d| >= 1 ==> |r| >= 1 && r[0] == d[0]
    ensures AllDigits(d) ==> forall k :: 0 <= k < |r| ==> r[k] == m || IsDigit(r[k])
    decreases |d|
  {
    if |d| <= 3 then d
    else
      var r := Group(m, d[..|d| - 3]) + [m] + d[|d| - 3..];
      assert AllDigits(d) ==> AllDigits(d[..|d| - 3]) && AllDigits(d[|d| - 3..]);
      r
  }

  predicate IsSign(sign: string) {
    sign == "" || sign == "+" || sign == "-"
  }

  /** Digits contain no marks. */
  lemma DigitsHaveNoMarks(f: DecimalFormat, sign: string, d: string)
    requires IsSign(sign) && AllDigits(d)
    ensures NoMarks(f, sign + d)
  {
    assert forall k :: |sign| <= k < |sign + d| ==> (sign + d)[k] == d[k - |sign|];
  }

  /** The last three digits form the last group. */
  lemma {:induction false} GroupedSplit(sign: string, m: char, d: string)
    requires |d| > 3
    ensures sign + Group(m, d) == sign + Group(m, d[..|d| - 3]) + [m] + d[|d| - 3..]
    ensures sign + d == sign + d[..|d| - 3] + d[|d| - 3..]
  {
    var d' := d[..|d| - 3];
    var y := d[|d| - 3..];
    assert Group(m, d) == Group(m, d') + [m] + y;
    Associate(Group(m, d'), [m], y);
    Associate(sign, Group(m, d'), [m] + y);
    Associate(sign + Group(m, d'), [m], y);
    assert d == d' + y;
    Associate(sign, d', y);
  }

  /**
   * Grouping `d` by threes gives a first group of one to three characters besides the sign and
   * groups of three after it.
   */
  lemma {:induction false} GroupedSizes(f: DecimalFormat, sign: string, m: char, d: string)
    requires IsSign(sign) && IsMark(f, m) && AllDigits(d) && |d| >= 1
    ensures var g := GroupSizes(f, sign + Group(m, d));
      && |sign| + 1 <= g[0] <= |sign| + 3
      && forall q :: 1 <= q < |g| ==> g[q] == 3
    decreases |d|
  {
    if |d| <= 3 {
      assert Group(m, d) == d;
      DigitsHaveNoMarks(f, sign, d);
      NoMarksGroups(f, sign + d);
    } else {
      var d' := d[..|d| - 3];
      var y := d[|d| - 3..];
      var p' := sign + Group(m, d');
      var g' := GroupSizes(f, p');
      var g := GroupSizes(f, sign + Group(m, d));
      assert |sign| + 1 <= g'[0] <= |sign| + 3 && forall q :: 1 <= q < |g'| ==> g'[q] == 3 by {
        assert AllDigits(d');
        GroupedSizes(f, sign, m, d');
      }
      assert g == g' + [3] by {
        assert AllDigits(y);
        DigitsHaveNoMarks(f, "", y);
        assert "" + y == y;
        GroupedSplit(sign, m, d);
        AppendGroupSizes(f, p', m, y);
      }
      assert forall q :: 1 <= q < |g'| ==> g[q] == g'[q];
    }
  }

  /** Removing the marks from the grouped digits gives back the sign and the digits. */
  lemma {:induction false} GroupedRemoveMarks(f: DecimalFormat, sign: string, m: char, d: string)
    requires IsSign(sign) && IsMark(f, m) && AllDigits(d)
    ensures RemoveMarks(f, sign + Group(m, d)) == sign + d
    decreases |d|
  {
    if |d| <= 3 {
      assert Group(m, d) == d;
      DigitsHaveNoMarks(f, sign, d);
      NoMarksKept(f, sign + d);
    } else {
      var d' := d[..|d| - 3];
      var y := d[|d| - 3..];
      assert AllDigits(d') && AllDigits(y);
      GroupedRemoveMarks(f, sign, m, d');
      DigitsHaveNoMarks(f, "", y);
      assert "" + y == y;
      GroupedSplit(sign, m, d);
      AppendGroupMarks(f, sign + Group(m, d'), m, y);
    }
  }

  lemma Associate(a: string, b: string, c: string)
    ensures a + (b + c) == a + b + c
  {
  }

  /** What comes after the integer part: nothing, or the decimal separator and the fraction. */
  function Tail(sep: char, withSeparator: bool, fraction: string): string {
    if withSeparator then [sep] + fraction else ""
  }

  /**
   * The integer part of a number written with or without grouping passes `removeThousandSeparator`,
   * which leaves the sign, the digits and the rest.
   */
  lemma {:induction false} UngroupNumber(f: DecimalFormat, sign: string, m: char, d: string, grouped: bool,
                                         withSeparator: bool, fraction: string)
    requires IsSign(sign) && IsMark(f, m) && AllDigits(d)
    ensures var p := sign + (if grouped then Group(m, d) else d);
      Ungroup(f, p + Tail(DecimalSeparator(f), withSeparator, fraction))
      == Ok(sign + d + Tail(DecimalSeparator(f), withSeparator, fraction))
  {
    var sep := DecimalSeparator(f);
    var p := sign + (if grouped then Group(m, d) else d);
    var tail := Tail(sep, withSeparator, fraction);
    IntegerPartGrouped(f, sign, m, d, grouped, p);
    SplitAtSeparator(p, tail, sep, p + tail);
  }

  /** The integer part holds no decimal separator, is grouped correctly and loses only its marks. */
  lemma {:induction false} IntegerPartGrouped(f: DecimalFormat, sign: string, m: char, d: string, grouped: bool,
                                              p: string)
    requires IsSign(sign) && IsMark(f, m) && AllDigits(d)
    requires p == sign + (if grouped then Group(m, d) else d)
    ensures forall k :: 0 <= k < |p| ==> p[k] != DecimalSeparator(f)
    ensures GroupingValid(f, p) && RemoveMarks(f, p) == sign + d
  {
    var sep := DecimalSeparator(f);
    var digits := if grouped then Group(m, d) else d;
    forall k | 0 <= k < |p| ensures p[k] != sep {
      if k >= |sign| {
        assert p[k] == digits[k - |sign|];
      }
    }
    if grouped && |d| >= 1 {
      GroupedSizes(f, sign, m, d);
      GroupedRemoveMarks(f, sign, m, d);
      assert |p| > 0 && p[0] == (if sign == "" then d[0] else sign[0]);
      assert Sign(p) == |sign|;
    } else {
      assert digits == d;
      DigitsHaveNoMarks(f, sign, d);
      NoMarksGroups(f, p);
      NoMarksKept(f, p);
    }
  }

  /** The first `c` of `p + tail` is where `tail` starts, when `p` holds none and `tail` starts with one. */
  lemma {:induction false} SplitAtSeparator(p: string, tail: string, c: char, s: string)
    requires s == p + tail
    requires forall k :: 0 <= k < |p| ==> p[k] != c
    requires tail == [] || tail[0] == c
    ensures IndexOf(s, c) == |p| && s[..|p|] == p && s[|p|..] == tail
  {
    var k := IndexOf(s, c);
    assert forall j :: 0 <= j < |p| ==> s[j] == p[j];
    if tail != [] {
      assert s[|p|] == c;
    }
  }

  /** `replaceCharacters` lets a sign, digits and one decimal separator through and makes it a point. */
  lemma {:induction false} ReplaceNumber(f: DecimalFormat, source: string, sign: string, d: string,
                                         withSeparator: bool, fraction: string)
    requires IsSign(sign) && AllDigits(d) && AllDigits(fraction)
    ensures Replace(f, source, sign + d + Tail(DecimalSeparator(f), withSeparator, fraction))
            == Ok(sign + (d + if withSeparator then "." + fraction else ""))
  {
    var t := sign + d + Tail(DecimalSeparator(f), withSeparator, fraction);
    NothingOffends(f, sign, d, withSeparator, fraction, t);
    SeparatorBecomesPoint(f, sign, d, withSeparator, fraction, t);
  }

  /** A sign, digits and one decimal separator hold nothing `replaceCharacters` rejects. */
  lemma {:induction false} NothingOffends(f: DecimalFormat, sign: string, d: string, withSeparator: bool,
                                          fraction: string, t: string)
    requires IsSign(sign) && AllDigits(d) && AllDigits(fraction)
    requires t == sign + d + Tail(DecimalSeparator(f), withSeparator, fraction)
    ensures FirstOffending(f, t, 0) == |t|
  {
    var sep := DecimalSeparator(f);
    var n := |sign| + |d|;
    assert forall k :: 0 <= k < |sign| ==> t[k] == sign[k];
    assert forall k :: |sign| <= k < n ==> t[k] == d[k - |sign|];
    assert forall k :: n < k < |t| ==> t[k] == fraction[k - n - 1];
    assert withSeparator ==> t[n] == sep;
    assert forall k :: 0 <= k < n ==> t[k] != sep;
    forall i | 0 <= i < |t|
      ensures !Offending(f, t, i)
    {
      if i == n {
        assert sep !in t[..i];
      }
    }
  }

  /** `WithPoint` rewrites the two parts of a text separately. */
  lemma WithPointConcat(f: DecimalFormat, a: string, b: string)
    ensures WithPoint(f, a + b) == WithPoint(f, a) + WithPoint(f, b)
  {
    assert forall k :: 0 <= k < |a| ==> (a + b)[k] == a[k];
    assert forall k :: |a| <= k < |a| + |b| ==> (a + b)[k] == b[k - |a|];
  }

  /** Text without the decimal separator is left as it is. */
  lemma WithPointKeeps(f: DecimalFormat, s: string)
    requires forall k :: 0 <= k < |s| ==> s[k] != DecimalSeparator(f)
    ensures WithPoint(f, s) == s
  {
  }

  /** The decimal separator of such a text is written as a point and nothing else changes. */
  lemma {:induction false} SeparatorBecomesPoint(f: DecimalFormat, sign: string, d: string, withSeparator: bool,
                                                 fraction: string, t: string)
    requires IsSign(sign) && AllDigits(d) && AllDigits(fraction)
    requires t == sign + d + Tail(DecimalSeparator(f), withSeparator, fraction)
    ensures WithPoint(f, t) == sign + (d + if withSeparator then "." + fraction else "")
  {
    var sep := DecimalSeparator(f);
    WithPointKeeps(f, sign);
    WithPointKeeps(f, d);
    WithPointConcat(f, sign, d);
    WithPointConcat(f, sign + d, Tail(sep, withSeparator, fraction));
    if withSeparator {
      WithPointKeeps(f, fraction);
      WithPointConcat(f, [sep], fraction);
      assert WithPoint(f, [sep]) == ".";
    } else {
      assert WithPoint(f, "") == "";
    }
  }

  /**
   * A number written with an optional sign, its integer digits grouped by threes with a mark
   * (the instance's thousand separator or a blank) or not grouped, and optionally the decimal
   * separator and fraction digits, converts to all its digits read as one number, negated for
   * a minus sign, with one decimal place per fraction digit.
   */
  lemma {:induction false} ConvertNumber(f: DecimalFormat, sign: string, m: char, d: string, grouped: bool,
                                         withSeparator: bool, fraction: string)
    requires IsSign(sign) && IsMark(f, m) && AllDigits(d) && AllDigits(fraction) && |d| + |fraction| >= 1
    requires !withSeparator ==> fraction == ""
    ensures AllDigits(d + fraction)
    ensures var s := sign + (if grouped then Group(m, d) else d) + Tail(DecimalSeparator(f), withSeparator, fraction);
      var magnitude: int := DigitsValue(d + fraction);
      Convert(f, s) == Ok(Decimal(if sign == "-" then -magnitude else magnitude, |fraction|))
  {
    var s := sign + (if grouped then Group(m, d) else d) + Tail(DecimalSeparator(f), withSeparator, fraction);
    UngroupNumber(f, sign, m, d, grouped, withSeparator, fraction);
    ReplaceNumber(f, s, sign, d, withSeparator, fraction);
    ParseNumber(sign, d, withSeparator, fraction);
  }

  /**
   * The conversion fails with the thousand separator message exactly when the integer part,
   * the text before the first decimal separator, is not grouped correctly.
   */
  lemma {:induction false} ConvertSeparatorError(f: DecimalFormat, s: string)
    ensures Convert(f, s) == Err(ConversionException(InvalidThousandSeparator, s))
            <==> !GroupingValid(f, s[..IndexOf(s, DecimalSeparator(f))])
  {
  }

  /**
   * A first group is refused, when a mark closes it, unless it holds one to three characters
   * after an optional leading sign.
   */
  lemma {:induction false} ConvertRejectsFirstGroup(f: DecimalFormat, x: string, m: char, rest: string)
    requires NoMarks(f, x) && IsMark(f, m)
    requires forall k :: 0 <= k < |x| ==> x[k] != DecimalSeparator(f)
    requires !(Sign(x) + 1 <= |x| <= Sign(x) + 3)
    ensures Convert(f, x + [m] + rest) == Err(ConversionException(InvalidThousandSeparator, x + [m] + rest))
  {
    var s := x + [m] + rest;
    FirstGroupMisplaced(f, x, m, rest, s);
    ConvertSeparatorError(f, s);
  }

  /** The integer part of `s` has a misplaced first group. */
  lemma {:induction false} FirstGroupMisplaced(f: DecimalFormat, x: string, m: char, rest: string, s: string)
    requires NoMarks(f, x) && IsMark(f, m)
    requires forall k :: 0 <= k < |x| ==> x[k] != DecimalSeparator(f)
    requires !(Sign(x) + 1 <= |x| <= Sign(x) + 3)
    requires s == x + [m] + rest
    ensures !GroupingValid(f, s[..IndexOf(s, DecimalSeparator(f))])
  {
    var p := x + [m];
    var k := IndexOf(s, DecimalSeparator(f));
    assert forall j :: 0 <= j < |p| ==> s[j] == p[j];
    assert k >= |p|;
    assert s[..|p|] == p;
    FirstGroupClosedBad(f, x, m);
    PrefixInvalid(f, s, |p|, k);
  }

  /** A mark after a first group of the wrong size closes a misplaced group. */
  lemma {:induction false} FirstGroupClosedBad(f: DecimalFormat, x: string, m: char)
    requires NoMarks(f, x) && IsMark(f, m)
    requires !(Sign(x) + 1 <= |x| <= Sign(x) + 3)
    ensures !ClosedGroupsValid(f, x + [m])
  {
    var p := x + [m];
    assert GroupSizes(f, p) == [|x|, 0] by {
      NoMarksGroups(f, x);
      GroupsSnoc(f, x, m);
    }
    assert Sign(p) == Sign(x) by {
      if |x| > 0 {
        assert p[0] == x[0];
      }
    }
  }

  /**
   * A group that follows a mark is refused unless it holds exactly three characters, whether
   * another mark, the decimal separator or the end of the text closes it.
   */
  lemma {:induction false} ConvertRejectsGroup(f: DecimalFormat, p: string, m: char, y: string, rest: string)
    requires IsMark(f, m) && NoMarks(f, y) && |y| != 3
    requires forall k :: 0 <= k < |p + [m] + y| ==> (p + [m] + y)[k] != DecimalSeparator(f)
    requires rest == [] || IsMark(f, rest[0]) || rest[0] == DecimalSeparator(f)
    ensures Convert(f, p + [m] + y + rest) == Err(ConversionException(InvalidThousandSeparator, p + [m] + y + rest))
  {
    var s := p + [m] + y + rest;
    GroupMisplaced(f, p, m, y, rest, s);
    ConvertSeparatorError(f, s);
  }

  /** The integer part of `s` has a misplaced group after the first. */
  lemma {:induction false} GroupMisplaced(f: DecimalFormat, p: string, m: char, y: string, rest: string, s: string)
    requires IsMark(f, m) && NoMarks(f, y) && |y| != 3
    requires forall k :: 0 <= k < |p + [m] + y| ==> (p + [m] + y)[k] != DecimalSeparator(f)
    requires rest == [] || IsMark(f, rest[0]) || rest[0] == DecimalSeparator(f)
    requires s == p + [m] + y + rest
    ensures !GroupingValid(f, s[..IndexOf(s, DecimalSeparator(f))])
  {
    var q := p + [m] + y;
    var k := IndexOf(s, DecimalSeparator(f));
    assert forall j :: 0 <= j < |q| ==> s[j] == q[j];
    assert k >= |q|;
    AppendGroupSizes(f, p, m, y);
    var g := GroupSizes(f, q);
    assert g[|g| - 1] == |y| && |g| > 1;
    if rest == [] || rest[0] == DecimalSeparator(f) {
      assert k == |q| by {
        if rest != [] {
          assert s[|q|] == DecimalSeparator(f);
        }
      }
      assert s[..k] == q;
    } else {
      var q' := q + [rest[0]];
      GroupsSnoc(f, q, rest[0]);
      assert GroupSizes(f, q')[|g| - 1] == |y|;
      assert !ClosedGroupsValid(f, q');
      assert k >= |q'| by {
        assert s[|q|] == rest[0];
      }
      assert s[..|q'|] == q';
      PrefixInvalid(f, s, |q'|, k);
    }
  }

  // ---------------------------------------------------------------------------------------
  // What follows the decimal separator
  // ---------------------------------------------------------------------------------------

  /**
   * After a sign, digits, the decimal separator and fraction digits, a character `c` that is
   * not a digit is the first one `replaceCharacters` rejects, unless it is a second point for
   * the decimal point instance.
   */
  lemma {:induction false} OffendsAfterFraction(f: DecimalFormat, sign: string, d: string, fraction: string,
                                                c: char, rest: string, t: string)
    requires IsSign(sign) && AllDigits(d) && AllDigits(fraction) && !IsDigit(c)
    requires c == DecimalSeparator(f) ==> c != '.'
    requires t == sign + d + Tail(DecimalSeparator(f), true, fraction + [c] + rest)
    ensures var n := |sign| + |d| + 1 + |fraction|;
            n < |t| && t[n] == c && FirstOffending(f, t, 0) == n
  {
    var sep := DecimalSeparator(f);
    var n0 := |sign| + |d|;
    var n := n0 + 1 + |fraction|;
    assert forall k :: 0 <= k < |sign| ==> t[k] == sign[k];
    assert forall k :: |sign| <= k < n0 ==> t[k] == d[k - |sign|];
    assert t[n0] == sep;
    assert forall k :: n0 < k < n ==> t[k] == fraction[k - n0 - 1];
    assert t[n] == c;
    assert forall k :: 0 <= k < n0 ==> t[k] != sep;
    forall i | 0 <= i < n
      ensures !Offending(f, t, i)
    {
      if i == n0 {
        assert sep !in t[..i];
      }
    }
    assert Offending(f, t, n) by {
      if c == sep {
        assert t[..n][n0] == sep;
      }
    }
  }

  /**
   * With the decimal comma instance a second decimal separator is refused: a number written
   * as above, then `,`, fraction digits and another `,`, fails with the invalid decimal
   * separator message whatever follows.
   */
  lemma {:induction false} ConvertRejectsSecondComma(sign: string, m: char, d: string, grouped: bool,
                                                     fraction: string, rest: string)
    requires IsSign(sign) && IsMark(DecimalComma, m) && AllDigits(d) && AllDigits(fraction)
    ensures var s := sign + (if grouped then Group(m, d) else d) + "," + fraction + "," + rest;
            Convert(DecimalComma, s) == Err(ConversionException(InvalidDecimalSeparator, s))
  {
    var f := DecimalComma;
    var p := sign + (if grouped then Group(m, d) else d);
    var after := fraction + [','] + rest;
    var s := p + Tail(',', true, after);
    var t := sign + d + Tail(',', true, after);
    assert p + "," + fraction + "," + rest == s;
    UngroupNumber(f, sign, m, d, grouped, true, after);
    SecondCommaReplaced(sign, d, fraction, rest, s, t);
    RefusedByReplace(f, s, t, ConversionException(InvalidDecimalSeparator, s));
  }

  /** `replaceCharacters` refuses the second comma as an invalid decimal separator. */
  lemma {:induction false} SecondCommaReplaced(sign: string, d: string, fraction: string, rest: string, s: string, t: string)
    requires IsSign(sign) && AllDigits(d) && AllDigits(fraction)
    requires t == sign + d + Tail(',', true, fraction + [','] + rest)
    ensures Replace(DecimalComma, s, t) == Err(ConversionException(InvalidDecimalSeparator, s))
  {
    OffendsAfterFraction(DecimalComma, sign, d, fraction, ',', rest, t);
  }

  /**
   * Removing thousand separators stops at the decimal separator, so a mark after it (the
   * instance's thousand separator or a blank) is refused as an invalid character.
   */
  lemma {:induction false} ConvertRejectsLaterMark(f: DecimalFormat, sign: string, m: char, d: string, grouped: bool,
                                                   fraction: string, m2: char, rest: string)
    requires IsSign(sign) && IsMark(f, m) && IsMark(f, m2) && AllDigits(d) && AllDigits(fraction)
    ensures var s := sign + (if grouped then Group(m, d) else d) + [DecimalSeparator(f)] + fraction + [m2] + rest;
            Convert(f, s) == Err(ConversionException(InvalidCharacters, s))
  {
    var sep := DecimalSeparator(f);
    var p := sign + (if grouped then Group(m, d) else d);
    var after := fraction + [m2] + rest;
    var s := p + Tail(sep, true, after);
    var t := sign + d + Tail(sep, true, after);
    assert p + [sep] + fraction + [m2] + rest == s;
    LaterMarkRefused(f, sign, m, d, grouped, fraction, m2, rest, s, t);
    RefusedByReplace(f, s, t, ConversionException(InvalidCharacters, s));
  }

  /** The two checks of `ConvertRejectsLaterMark`: the marks go, then the later mark is refused. */
  lemma {:induction false} LaterMarkRefused(f: DecimalFormat, sign: string, m: char, d: string, grouped: bool,
                                            fraction: string, m2: char, rest: string, s: string, t: string)
    requires IsSign(sign) && IsMark(f, m) && IsMark(f, m2) && AllDigits(d) && AllDigits(fraction)
    requires s == sign + (if grouped then Group(m, d) else d) + Tail(DecimalSeparator(f), true, fraction + [m2] + rest)
    requires t == sign + d + Tail(DecimalSeparator(f), true, fraction + [m2] + rest)
    ensures Ungroup(f, s) == Ok(t) && Replace(f, s, t) == Err(ConversionException(InvalidCharacters, s))
  {
    UngroupNumber(f, sign, m, d, grouped, true, fraction + [m2] + rest);
    LaterMarkReplaced(f, sign, d, fraction, m2, rest, s, t);
  }

  /** `replaceCharacters` refuses the later mark as an invalid character. */
  lemma {:induction false} LaterMarkReplaced(f: DecimalFormat, sign: string, d: string, fraction: string,
                                             m2: char, rest: string, s: string, t: string)
    requires IsSign(sign) && IsMark(f, m2) && AllDigits(d) && AllDigits(fraction)
    requires t == sign + d + Tail(DecimalSeparator(f), true, fraction + [m2] + rest)
    ensures Replace(f, s, t) == Err(ConversionException(InvalidCharacters, s))
  {
    OffendsAfterFraction(f, sign, d, fraction, m2, rest, t);
    assert m2 != DecimalSeparator(f);
  }

  /** A text `removeThousandSeparator` lets through and `replaceCharacters` refuses fails with the latter's error. */
  lemma RefusedByReplace(f: DecimalFormat, s: string, t: string, e: Exception)
    requires Ungroup(f, s) == Ok(t) && Replace(f, s, t) == Err(e)
    ensures Convert(f, s) == Err(e)
  {
  }

  /**
   * With the decimal point instance a second point gets past both checks, and the `BigDecimal`
   * constructor refuses it: the result is a `NumberFormatException`, not a conversion error.
   */
  lemma {:induction false} ConvertRejectsSecondPoint(sign: string, m: char, d: string, grouped: bool,
                                                     fraction: string, rest: string)
    requires IsSign(sign) && IsMark(DecimalPoint, m) && AllDigits(d) && AllDigits(fraction) && AllDigits(rest)
    ensures var s := sign + (if grouped then Group(m, d) else d) + "." + fraction + "." + rest;
            Convert(DecimalPoint, s) == Err(NumberFormatException)
  {
    var f := DecimalPoint;
    var p := sign + (if grouped then Group(m, d) else d);
    var after := fraction + ['.'] + rest;
    var s := p + Tail('.', true, after);
    var t := sign + d + Tail('.', true, after);
    assert p + "." + fraction + "." + rest == s;
    UngroupNumber(f, sign, m, d, grouped, true, after);
    SecondPointPasses(sign, d, fraction, rest, s, t);
    SecondPointUnparsed(sign, d, fraction, rest, t);
    RefusedByParse(f, s, t, t);
  }

  /** A text both checks let through and the `BigDecimal` constructor refuses is a `NumberFormatException`. */
  lemma RefusedByParse(f: DecimalFormat, s: string, t: string, u: string)
    requires Ungroup(f, s) == Ok(t) && Replace(f, s, t) == Ok(u) && Parse(u) == None
    ensures Convert(f, s) == Err(NumberFormatException)
  {
  }

  /** Text of a sign, digits and points holds nothing the decimal point instance rejects or rewrites. */
  lemma {:induction false} SecondPointPasses(sign: string, d: string, fraction: string, rest: string, s: string, t: string)
    requires IsSign(sign) && AllDigits(d) && AllDigits(fraction) && AllDigits(rest)
    requires t == sign + d + Tail('.', true, fraction + ['.'] + rest)
    ensures Replace(DecimalPoint, s, t) == Ok(t)
  {
    var body := d + "." + fraction + "." + rest;
    assert t == sign + body;
    assert forall k :: 0 <= k < |sign| ==> t[k] == sign[k];
    assert forall k :: |sign| <= k < |t| ==> t[k] == body[k - |sign|];
    assert forall k :: 0 <= k < |d| ==> body[k] == d[k];
    assert forall k :: |d| < k <= |d| + |fraction| ==> body[k] == fraction[k - |d| - 1];
    assert forall k :: |d| + |fraction| + 1 < k < |body| ==> body[k] == rest[k - |d| - |fraction| - 2];
    forall i | 0 <= i < |t| ensures !Offending(DecimalPoint, t, i) {
    }
    assert WithPoint(DecimalPoint, t) == t;
  }

  /** The `BigDecimal` constructor refuses a text with two points. */
  lemma {:induction false} SecondPointUnparsed(sign: string, d: string, fraction: string, rest: string, t: string)
    requires IsSign(sign) && AllDigits(d)
    requires t == sign + d + Tail('.', true, fraction + ['.'] + rest)
    ensures Parse(t) == None
  {
    var body := d + "." + fraction + "." + rest;
    assert t == sign + body;
    assert IndexOf(body, '.') == |d| by {
      assert forall k :: 0 <= k < |d| ==> body[k] == d[k];
      assert body[|d|] == '.';
    }
    assert body[|d| + 1..] == fraction + "." + rest;
    assert (fraction + "." + rest)[|fraction|] == '.';
    assert ParseUnsigned(body) == None;
    assert body[0] == '.' || IsDigit(body[0]) by {
      if |d| > 0 {
        assert body[0] == d[0];
      }
    }
    ParseSigned(sign, body);
  }

  /** The plain notation is a sign, the integer digits and, for a positive scale, a point and the fraction digits. */
  lemma PlainStringParts(d: Decimal)
    ensures IsSign(SignText(d))
    ensures PlainString(d) == SignText(d) + IntegerDigits(d) + Tail('.', d.scale > 0, FractionDigits(d))
  {
  }

  /** The plain notation's sign and digits stand for the unscaled value, its fraction digits for the scale. */
  lemma PlainValue(d: Decimal)
    ensures AllDigits(IntegerDigits(d)) && AllDigits(FractionDigits(d)) && AllDigits(IntegerDigits(d) + FractionDigits(d))
    ensures |IntegerDigits(d)| + |FractionDigits(d)| >= 1 && (d.scale == 0 ==> FractionDigits(d) == "")
    ensures var v: int := DigitsValue(IntegerDigits(d) + FractionDigits(d));
            Decimal(if SignText(d) == "-" then -v else v, |FractionDigits(d)|) == d
  {
    PlainDigits(d);
  }

  /** `toPlainString` loses nothing: the `BigDecimal` constructor reads it back as the same number at the same scale. */
  lemma PlainStringParses(d: Decimal)
    ensures Parse(PlainString(d)) == Some(d)
  {
    PlainStringParts(d);
    PlainValue(d);
    ParseUngrouped(PlainString(d), SignText(d), IntegerDigits(d), d.scale > 0, FractionDigits(d));
  }

  /** `ParseNumber` stated for any text `t` equal to the number written out. */
  lemma {:induction false} ParseUngrouped(t: string, sign: string, d: string, withPoint: bool, fraction: string)
    requires IsSign(sign) && AllDigits(d) && AllDigits(fraction) && |d| + |fraction| >= 1
    requires !withPoint ==> fraction == ""
    requires t == sign + d + Tail('.', withPoint, fraction)
    ensures AllDigits(d + fraction)
    ensures var v: int := DigitsValue(d + fraction);
      Parse(t) == Some(Decimal(if sign == "-" then -v else v, |fraction|))
  {
    Associate(sign, d, Tail('.', withPoint, fraction));
    ParseNumber(sign, d, withPoint, fraction);
  }

  /** What `toString` writes in plain notation the `BigDecimal` constructor reads back as the same number. */
  lemma ToStringParses(d: Decimal)
    requires WrittenPlain(d)
    ensures Parse(BigDecimals.ToString(d)) == Some(d)
  {
    PlainStringParses(d);
  }

  /**
   * The converter in decimal-point format reads the plain notation of every number back as that
   * very number, at its own scale: 2.50 stays 2.50 and -0.005 stays -0.005.
   */
  lemma ConvertPlainString(d: Decimal)
    ensures Convert(DecimalPoint, PlainString(d)) == Ok(d)
  {
    PlainStringParts(d);
    PlainValue(d);
    ConvertUngrouped(DecimalPoint, PlainString(d), SignText(d), IntegerDigits(d), d.scale > 0, FractionDigits(d));
  }

  /** `ConvertNumber` for ungrouped digits, stated for any text `s` equal to the number written out. */
  lemma {:induction false} ConvertUngrouped(f: DecimalFormat, s: string, sign: string, d: string, withSeparator: bool, fraction: string)
    requires IsSign(sign) && AllDigits(d) && AllDigits(fraction) && |d| + |fraction| >= 1
    requires !withSeparator ==> fraction == ""
    requires s == sign + d + Tail(DecimalSeparator(f), withSeparator, fraction)
    ensures AllDigits(d + fraction)
    ensures var v: int := DigitsValue(d + fraction);
      Convert(f, s) == Ok(Decimal(if sign == "-" then -v else v, |fraction|))
  {
    ConvertNumber(f, sign, ThousandSeparator(f), d, false, withSeparator, fraction);
  }

  /** What `BigDecimal.toString` writes in plain notation converts back to the same number. */
  lemma ConvertToString(d: Decimal)
    requires WrittenPlain(d)
    ensures Convert(DecimalPoint, ToString(d)) == Ok(d)
  {
    ConvertPlainString(d);
  }

  /** Text without marks or decimal separator passes `removeThousandSeparator` unchanged. */
  lemma {:induction false} UngroupUnmarked(f: DecimalFormat, s: string)
    requires NoMarks(f, s) && IndexOf(s, DecimalSeparator(f)) == |s|
    ensures Ungroup(f, s) == Ok(s)
  {
    NoMarksGroups(f, s);
    NoMarksKept(f, s);
    assert s[..|s|] == s && s + s[|s|..] == s;
  }

  /** The converter refuses `1E-7` for its invalid character `E`. */
  lemma ConvertRefusesExponent()
    ensures Convert(DecimalPoint, "1E-7") == Err(ConversionException(InvalidCharacters, "1E-7"))
  {
    var s := "1E-7";
    var e := ConversionException(InvalidCharacters, s);
    assert IndexOf(s, '.') == 4;
    UngroupUnmarked(DecimalPoint, s);
    assert Replace(DecimalPoint, s, s) == Err(e) by {
      assert !Offending(DecimalPoint, s, 0);
      assert Offending(DecimalPoint, s, 1);
      assert FirstOffending(DecimalPoint, s, 1) == 1;
      assert FirstOffending(DecimalPoint, s, 0) == 1;
    }
    RefusedByReplace(DecimalPoint, s, s, e);
  }

  /**
   * `BigDecimal.toString` writes 10^-7 in scientific notation, which the converter refuses:
   * its output is not always accepted back.
   */
  lemma ToStringScientificRefused()
    ensures !WrittenPlain(Decimal(1, 7))
    ensures Convert(DecimalPoint, ToString(Decimal(1, 7))) == Err(ConversionException(InvalidCharacters, "1E-7"))
  {
    ToStringScientific();
    ConvertRefusesExponent();
  }
}
