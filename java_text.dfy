/**
 * The few behaviours of java.lang.String, Character and Integer that the core relies on:
 * `String.trim`, `String.isBlank`, `Integer.toString` and `String.compareTo`.
 * Characters are Unicode scalar values; `String.compareTo` works on their UTF-16 code units.
 */
module JavaText {

  /** `String.trim` removes every leading and trailing character whose code is at most U+0020. */
  predicate IsTrimmable(c: char) {
    c <= ' '
  }

  /** `Character.isWhitespace`, the test behind `String.isBlank`. */
  predicate IsWhitespace(c: char) {
    || ('\t' <= c <= '\r')
    || ('\U{1C}' <= c <= '\U{1F}')
    || c == ' '
    || c == '\U{1680}'
    || ('\U{2000}' <= c <= '\U{2006}')
    || ('\U{2008}' <= c <= '\U{200A}')
    || c == '\U{2028}' || c == '\U{2029}' || c == '\U{205F}' || c == '\U{3000}'
  }

  /** `String.isBlank`: empty or only whitespace. */
  predicate IsBlank(s: string) {
    forall k :: 0 <= k < |s| ==> IsWhitespace(s[k])
  }

  /** Number of trimmable characters at the start of `s`. */
  function LeadingTrimmable(s: string): (n: nat)
    ensures n <= |s|
    ensures forall k :: 0 <= k < n ==> IsTrimmable(s[k])
    ensures n < |s| ==> !IsTrimmable(s[n])
  {
    if |s| == 0 || !IsTrimmable(s[0]) then 0 else 1 + LeadingTrimmable(s[1..])
  }

  /** Number of trimmable characters at the end of `s`. */
  function TrailingTrimmable(s: string): (n: nat)
    ensures n <= |s|
    ensures forall k :: |s| - n <= k < |s| ==> IsTrimmable(s[k])
    ensures n < |s| ==> !IsTrimmable(s[|s| - n - 1])
  {
    if |s| == 0 || !IsTrimmable(s[|s| - 1]) then 0 else 1 + TrailingTrimmable(s[..|s| - 1])
  }

  /**
   * `String.trim`: the longest infix of `s` that neither starts nor ends with a trimmable
   * character, everything cut off on either side being trimmable.
   */
  function Trim(s: string): (r: string)
    ensures |r| <= |s|
    ensures r == [] || (!IsTrimmable(r[0]) && !IsTrimmable(r[|r| - 1]))
    ensures r == [] <==> forall k :: 0 <= k < |s| ==> IsTrimmable(s[k])
    ensures LeadingTrimmable(s) + |r| <= |s|
    ensures r == s[LeadingTrimmable(s)..LeadingTrimmable(s) + |r|]
    ensures forall k :: LeadingTrimmable(s) + |r| <= k < |s| ==> IsTrimmable(s[k])
  {
    var lead := LeadingTrimmable(s);
    var rest := s[lead..];
    var r := rest[..|rest| - TrailingTrimmable(rest)];
    assert r == s[lead..lead + |r|];
    r
  }

  /**
   * Whitespace is trimmable exactly when it is ASCII, so a blank string trims to nothing if and
   * only if all its characters are ASCII: U+3000 is blank, yet `trim` keeps it.
   */
  lemma BlankTrimmed(s: string)
    requires IsBlank(s)
    ensures Trim(s) == [] <==> forall k :: 0 <= k < |s| ==> s[k] < '\U{80}'
  {
  }

  /** Trimming twice is trimming once. */
  lemma TrimIdempotent(s: string)
    ensures Trim(Trim(s)) == Trim(s)
  {
    var t := Trim(s);
    if t != [] {
      assert LeadingTrimmable(t) == 0;
      assert TrailingTrimmable(t) == 0;
    }
  }

  /**
   * `String.indexOf` for one character, except that a missing character gives the length of
   * the text instead of -1.
   */
  function IndexOf(s: string, c: char): (k: nat)
    ensures k <= |s|
    ensures forall j :: 0 <= j < k ==> s[j] != c
    ensures k < |s| ==> s[k] == c
  {
    if |s| == 0 then 0 else if s[0] == c then 0 else 1 + IndexOf(s[1..], c)
  }

  predicate AllDigits(s: string) {
    forall k :: 0 <= k < |s| ==> IsDigit(s[k])
  }

  /** The decimal digit for `d`. */
  function DigitChar(d: nat): (c: char)
    requires d < 10
    ensures '0' <= c <= '9'
  {
    "0123456789"[d]
  }

  predicate IsDigit(c: char) {
    '0' <= c <= '9'
  }

  /** The value of a decimal digit character. */
  function DigitOf(c: char): (d: nat)
    requires IsDigit(c)
    ensures d < 10
  {
    c as int - '0' as int
  }

  /** The value of a run of decimal digits, most significant first (zero for none). */
  function DigitsValue(s: string): (v: nat)
    requires forall k :: 0 <= k < |s| ==> IsDigit(s[k])
  {
    if |s| == 0 then 0 else 10 * DigitsValue(s[..|s| - 1]) + DigitOf(s[|s| - 1])
  }

  /** The decimal digits of `n` without leading zeros (`"0"` for zero). */
  function NatToString(n: nat): (r: string)
    ensures |r| >= 1
    ensures forall k :: 0 <= k < |r| ==> IsDigit(r[k])
    ensures DigitsValue(r) == n
    ensures |r| > 1 ==> r[0] != '0'
  {
    if n < 10 then [DigitChar(n)]
    else
      var r := NatToString(n / 10) + [DigitChar(n % 10)];
      assert r[..|r| - 1] == NatToString(n / 10);
      r
  }

  /** `Integer.toString`: a minus sign for negative numbers, then the digits of the magnitude. */
  function IntToString(n: int): (r: string)
    ensures |r| >= 1
    ensures r[0] == '-' <==> n < 0
    ensures n < 0 ==> r[1..] == NatToString(-n)
    ensures n >= 0 ==> r == NatToString(n)
  {
    if n < 0 then "-" + NatToString(-n) else NatToString(n)
  }

  /**
   * The UTF-16 code units Java stores for one character: the character itself below U+10000,
   * otherwise a high surrogate (U+D800..U+DBFF) followed by a low surrogate (U+DC00..U+DFFF).
   */
  function Utf16Char(c: char): (u: seq<int>)
    ensures |u| == if c as int < 0x1_0000 then 1 else 2
    ensures forall k :: 0 <= k < |u| ==> 0 <= u[k] < 0x1_0000
    ensures |u| == 1 ==> u[0] == c as int && !(0xD800 <= u[0] < 0xE000)
    ensures |u| == 2 ==> 0xD800 <= u[0] < 0xDC00 && 0xDC00 <= u[1] < 0xE000
    ensures |u| == 2 ==> c as int == 0x1_0000 + (u[0] - 0xD800) * 0x400 + (u[1] - 0xDC00)
  {
    var v := c as int;
    if v < 0x1_0000 then [v]
    else [0xD800 + (v - 0x1_0000) / 0x400, 0xDC00 + (v - 0x1_0000) % 0x400]
  }

  /** The UTF-16 code units of a string, the sequence `String.charAt` indexes. */
  function Utf16(s: string): (u: seq<int>)
    ensures |u| >= |s|
    ensures forall k :: 0 <= k < |u| ==> 0 <= u[k] < 0x1_0000
  {
    if |s| == 0 then [] else Utf16Char(s[0]) + Utf16(s[1..])
  }

  /** Different strings have different UTF-16 code units. */
  lemma {:induction false} Utf16Injective(a: string, b: string)
    requires Utf16(a) == Utf16(b)
    ensures a == b
  {
    if |a| > 0 && |b| > 0 {
      var ua, ub := Utf16Char(a[0]), Utf16Char(b[0]);
      assert Utf16(a) == ua + Utf16(a[1..]) && Utf16(b) == ub + Utf16(b[1..]);
      assert ua[0] == Utf16(a)[0] && ub[0] == Utf16(b)[0];
      assert |ua| == |ub|;
      assert ua == Utf16(a)[..|ua|] && ub == Utf16(b)[..|ub|];
      assert a[0] == b[0];
      assert Utf16(a)[|ua|..] == Utf16(a[1..]) && Utf16(b)[|ub|..] == Utf16(b[1..]);
      Utf16Injective(a[1..], b[1..]);
      assert a == [a[0]] + a[1..] && b == [b[0]] + b[1..];
    }
  }

  /** Comparison of code unit sequences: the difference of the first differing units, else of the lengths. */
  function CompareUnits(u: seq<int>, v: seq<int>): (r: int)
    ensures r == 0 <==> u == v
  {
    if |u| == 0 || |v| == 0 then |u| - |v|
    else if u[0] != v[0] then u[0] - v[0]
    else
      var r := CompareUnits(u[1..], v[1..]);
      assert u == [u[0]] + u[1..] && v == [v[0]] + v[1..];
      r
  }

  /** Swapping the sequences negates their comparison. */
  lemma {:induction false} CompareUnitsAntisymmetric(u: seq<int>, v: seq<int>)
    ensures CompareUnits(u, v) == -CompareUnits(v, u)
  {
    if |u| > 0 && |v| > 0 && u[0] == v[0] {
      CompareUnitsAntisymmetric(u[1..], v[1..]);
    }
  }

  /** The comparison of code unit sequences is transitive on negative results. */
  lemma {:induction false} CompareUnitsTransitive(u: seq<int>, v: seq<int>, w: seq<int>)
    requires CompareUnits(u, v) < 0 && CompareUnits(v, w) < 0
    ensures CompareUnits(u, w) < 0
  {
    if |u| > 0 && |v| > 0 && |w| > 0 && u[0] == v[0] && v[0] == w[0] {
      CompareUnitsTransitive(u[1..], v[1..], w[1..]);
    }
  }

  /**
   * `String.compareTo`: the lexicographic comparison of the UTF-16 code units, the difference
   * of the first differing units, else of the lengths; zero exactly for equal strings.
   */
  function CompareStrings(a: string, b: string): (r: int)
    ensures r == 0 <==> a == b
    ensures r == CompareUnits(Utf16(a), Utf16(b))
  {
    if Utf16(a) == Utf16(b) then Utf16Injective(a, b); 0
    else CompareUnits(Utf16(a), Utf16(b))
  }

  /**
   * The order is that of code units, not of code points: U+FFFF sorts after U+10000, whose
   * first unit is the high surrogate U+D800.
   */
  lemma CompareStringsByCodeUnits()
    ensures CompareStrings("\U{FFFF}", "\U{10000}") == 0xFFFF - 0xD800
    ensures '\U{FFFF}' < '\U{10000}'
  {
    assert Utf16("\U{FFFF}") == [0xFFFF];
    assert Utf16("\U{10000}") == [0xD800, 0xDC00];
  }

  /** `String.compareTo` is antisymmetric. */
  lemma CompareStringsAntisymmetric(a: string, b: string)
    ensures CompareStrings(a, b) == -CompareStrings(b, a)
  {
    CompareUnitsAntisymmetric(Utf16(a), Utf16(b));
  }

  /** `String.compareTo` orders strings consistently: it is transitive on negative results. */
  lemma CompareStringsTransitive(a: string, b: string, c: string)
    requires CompareStrings(a, b) < 0 && CompareStrings(b, c) < 0
    ensures CompareStrings(a, c) < 0
  {
    CompareUnitsTransitive(Utf16(a), Utf16(b), Utf16(c));
  }
}
