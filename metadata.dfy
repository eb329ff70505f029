/**
 * `SimpleRecordMetaData`: the fields of a record, kept as a list sorted by ordinal, with the
 * largest ordinal computed once. The object does not change after construction.
 */
module MetaData {
  import opened Wrappers
  import opened Exceptions
  import opened Fields

  /** No two fields are equal: what a Java `Set` of fields guarantees. */
  predicate Distinct(fs: seq<Field>) {
    forall i, j :: 0 <= i < j < |fs| ==> !Equals(fs[i], fs[j])
  }

  predicate SortedByOrdinal(fs: seq<Field>) {
    forall i, j :: 0 <= i < j < |fs| ==> fs[i].ordinal <= fs[j].ordinal
  }

  /** Puts `f` in front of the first field whose ordinal is not smaller. */
  function Insert(f: Field, s: seq<Field>): (r: seq<Field>)
    requires SortedByOrdinal(s)
    ensures SortedByOrdinal(r)
    ensures multiset(r) == multiset(s) + multiset{f}
    ensures |r| == |s| + 1
    ensures r[0] == f || (|s| > 0 && r[0] == s[0])
  {
    if s == [] || f.ordinal <= s[0].ordinal then [f] + s
    else
      var t := Insert(f, s[1..]);
      assert s == [s[0]] + s[1..];
      assert s[0].ordinal <= t[0].ordinal;
      [s[0]] + t
  }

  /**
   * `sorted(comparingInt(Field::ordinal))`: a stable sort of the set's iteration order, here
   * the order of `fs`.
   */
  function SortByOrdinal(fs: seq<Field>): (r: seq<Field>)
    ensures SortedByOrdinal(r)
    ensures multiset(r) == multiset(fs)
    ensures |r| == |fs|
  {
    if fs == [] then []
    else
      assert fs == [fs[0]] + fs[1..];
      Insert(fs[0], SortByOrdinal(fs[1..]))
  }

  /** `mapToInt(Field::ordinal).max()` on a list that is not empty. */
  function MaxOrdinal(fs: seq<Field>): (m: nat)
    requires |fs| > 0
    ensures exists i :: 0 <= i < |fs| && fs[i].ordinal == m
    ensures forall i :: 0 <= i < |fs| ==> fs[i].ordinal <= m
  {
    if |fs| == 1 then fs[0].ordinal
    else
      var m := MaxOrdinal(fs[1..]);
      assert forall i :: 1 <= i < |fs| ==> fs[i] == fs[1..][i - 1];
      if fs[0].ordinal >= m then fs[0].ordinal else m
  }

  datatype RecordMetaData = RecordMetaData(fieldList: seq<Field>, maxFieldOrdinal: nat)

  /** What construction establishes: some fields, sorted, and the largest ordinal among them. */
  predicate Valid(md: RecordMetaData) {
    && |md.fieldList| > 0
    && SortedByOrdinal(md.fieldList)
    && (forall i :: 0 <= i < |md.fieldList| ==> md.fieldList[i].ordinal <= md.maxFieldOrdinal)
    && (exists i :: 0 <= i < |md.fieldList| && md.fieldList[i].ordinal == md.maxFieldOrdinal)
  }

  const NoFieldsMessage: string := "At least one field must be specified"

  /**
   * The constructor: the set is copied and sorted by ordinal; an empty set has no maximum
   * ordinal and is refused with an `IllegalArgumentException`.
   */
  function NewMetaData(fields: seq<Field>): (r: Result<RecordMetaData, Exception>)
    ensures r.Ok? <==> |fields| > 0
    ensures r.Err? ==> r.error == IllegalArgumentException(NoFieldsMessage)
    ensures r.Ok? ==> Valid(r.value)
    ensures r.Ok? ==> multiset(r.value.fieldList) == multiset(fields)
  {
    if |fields| == 0 then Err(IllegalArgumentException(NoFieldsMessage))
    else
      var sorted := SortByOrdinal(fields);
      PermutationKeepsMaximum(fields, sorted);
      Ok(RecordMetaData(sorted, MaxOrdinal(sorted)))
  }

  /** A permutation has the same elements, so the same maximum ordinal. */
  lemma {:induction false} PermutationKeepsMaximum(a: seq<Field>, b: seq<Field>)
    requires |a| > 0 && multiset(a) == multiset(b)
    ensures |b| > 0 && MaxOrdinal(a) == MaxOrdinal(b)
  {
    assert a[0] in multiset(b);
    var ma, mb := MaxOrdinal(a), MaxOrdinal(b);
    var i :| 0 <= i < |a| && a[i].ordinal == ma;
    var j :| 0 <= j < |b| && b[j].ordinal == mb;
    assert a[i] in multiset(b);
    assert b[j] in multiset(a);
    var i' :| 0 <= i' < |b| && b[i'] == a[i];
    var j' :| 0 <= j' < |a| && a[j'] == b[j];
  }

  /** In the sorted list the largest ordinal is the last field's. */
  lemma MaximumIsLast(md: RecordMetaData)
    requires Valid(md)
    ensures md.fieldList[|md.fieldList| - 1].ordinal == md.maxFieldOrdinal
  {
    var i :| 0 <= i < |md.fieldList| && md.fieldList[i].ordinal == md.maxFieldOrdinal;
  }

  /** `fieldStream`: the fields by ascending ordinal. */
  function FieldStream(md: RecordMetaData): (r: seq<Field>)
    requires Valid(md)
    ensures SortedByOrdinal(r) && |r| > 0
  {
    md.fieldList
  }

  /** `containsField`: membership by `equals`, so the converter of `f` does not matter. */
  predicate ContainsField(md: RecordMetaData, f: Field): (r: bool)
    ensures r <==> exists i :: 0 <= i < |md.fieldList| && md.fieldList[i].(converter := f.converter) == f
  {
    exists i :: 0 <= i < |md.fieldList| && Equals(md.fieldList[i], f)
  }

  /** A contained field's ordinal is at most the largest ordinal. */
  lemma ContainedOrdinal(md: RecordMetaData, f: Field)
    requires Valid(md) && ContainsField(md, f)
    ensures f.ordinal <= md.maxFieldOrdinal
  {
    var i :| 0 <= i < |md.fieldList| && Equals(md.fieldList[i], f);
  }

  /** `getFieldCount`: the number of fields, one per element of the set, so never zero. */
  function FieldCount(md: RecordMetaData): (r: nat)
    ensures Valid(md) ==> r >= 1
  {
    |md.fieldList|
  }

  /**
   * `getField`: the field at position `index` of the sorted list, not the field whose ordinal
   * is `index`. An index outside the list fails; the message of the wrapped
   * `IndexOutOfBoundsException` is not modelled.
   */
  function GetField(md: RecordMetaData, index: int): (r: Result<Field, Exception>)
    ensures r.Ok? <==> 0 <= index < FieldCount(md)
    ensures r.Ok? ==> r.value == md.fieldList[index]
    ensures r.Err? ==> r.error.IllegalArgumentException?
  {
    if 0 <= index < |md.fieldList| then Ok(md.fieldList[index]) else Err(IllegalArgumentException(""))
  }

  /** The fields come out by ascending ordinal, so `getField` is monotone in the ordinal. */
  lemma GetFieldOrdered(md: RecordMetaData, i: int, j: int)
    requires Valid(md) && 0 <= i < j < FieldCount(md)
    ensures GetField(md, i).value.ordinal <= GetField(md, j).value.ordinal
  {
  }

  /** The metadata of a set of fields lists each of them exactly once. */
  lemma {:induction false} NewMetaDataCountsFields(fields: seq<Field>)
    requires |fields| > 0 && Distinct(fields)
    ensures FieldCount(NewMetaData(fields).value) == |fields|
    ensures forall k :: 0 <= k < |fields| ==> ContainsField(NewMetaData(fields).value, fields[k])
  {
    var md := NewMetaData(fields).value;
    forall k | 0 <= k < |fields|
      ensures ContainsField(md, fields[k])
    {
      assert fields[k] in multiset(md.fieldList);
      var i :| 0 <= i < |md.fieldList| && md.fieldList[i] == fields[k];
      assert Equals(md.fieldList[i], fields[k]);
    }
  }
}
