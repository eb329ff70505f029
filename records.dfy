/**
 * `SimpleImmutableRecord`: metadata and a private copy of the values, indexed by field
 * ordinal. The copy is a sequence, so nothing the caller does to its array afterwards can
 * reach the record.
 */
module Records {
  import opened Wrappers
  import opened JavaText
  import opened Exceptions
  import opened Types
  import opened Fields
  import opened MetaData

  datatype Record = Record(metaData: RecordMetaData, values: seq<Value>)

  /** What construction establishes: a slot for every ordinal up to the largest one. */
  predicate Valid(r: Record) {
    MetaData.Valid(r.metaData) && |r.values| > r.metaData.maxFieldOrdinal
  }

  function TooFewValuesMessage(md: RecordMetaData): string {
    "Record must contain at least " + IntToString(md.maxFieldOrdinal + 1) + " values"
  }

  /**
   * The constructor: fewer values than the largest ordinal plus one are refused with an
   * `IllegalArgumentException`; otherwise the record keeps the metadata and the values.
   */
  function NewRecord(md: RecordMetaData, values: seq<Value>): (r: Result<Record, Exception>)
    ensures r.Ok? <==> |values| > md.maxFieldOrdinal
    ensures r.Err? ==> r.error == IllegalArgumentException(TooFewValuesMessage(md))
    ensures r.Ok? ==> r.value.metaData == md && r.value.values == values
    ensures r.Ok? && MetaData.Valid(md) ==> Valid(r.value)
  {
    if |values| <= md.maxFieldOrdinal then Err(IllegalArgumentException(TooFewValuesMessage(md)))
    else Ok(Record(md, values))
  }

  function NotIncludedMessage(f: Field): string {
    "Field is not included in record: " + f.name
  }

  /**
   * `getValue`: a field the metadata does not contain is refused with an
   * `IllegalArgumentException`; otherwise the value in the slot of the field's ordinal is cast
   * to the field's type, which fails with a `ClassCastException` when it does not match.
   */
  function GetValue(r: Record, f: Field): (v: Result<Value, Exception>)
    requires Valid(r)
    ensures !ContainsField(r.metaData, f) ==> v == Err(IllegalArgumentException(NotIncludedMessage(f)))
    ensures ContainsField(r.metaData, f) ==> f.ordinal < |r.values|
    ensures ContainsField(r.metaData, f) ==> v == Fields.Cast(f, r.values[f.ordinal])
  {
    if !ContainsField(r.metaData, f) then Err(IllegalArgumentException(NotIncludedMessage(f)))
    else
      ContainedOrdinal(r.metaData, f);
      Fields.Cast(f, r.values[f.ordinal])
  }

  /**
   * Reading a record by the fields it was built with gives back what was stored in their
   * slots, whenever the stored values match the fields' types.
   */
  lemma {:induction false} GetValueReturnsStored(md: RecordMetaData, values: seq<Value>, f: Field)
    requires MetaData.Valid(md) && |values| > md.maxFieldOrdinal
    requires f in md.fieldList
    requires values[f.ordinal] == Null || IsInstance(f.fieldType, values[f.ordinal])
    ensures GetValue(NewRecord(md, values).value, f) == Ok(values[f.ordinal])
  {
    var i :| 0 <= i < |md.fieldList| && md.fieldList[i] == f;
    assert Equals(md.fieldList[i], f);
  }
}
