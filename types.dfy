/**
 * Java's runtime types as far as the core inspects them: a type tag for the `Class` object of
 * a field or converter, a value union for the objects stored in records, and `Class.cast`.
 */
module Types {
  import opened Wrappers
  import opened BigDecimals
  import opened Exceptions

  /** `Object`, `String`, `Number`, `BigDecimal`, or any other class (such as `Double` or `LocalDate`). */
  datatype TypeTag = ObjectType | StringType | NumberType | BigDecimalType | OtherType(name: string, isNumber: bool)

  /** A reference held in a record slot: null, a string, a decimal, or an object of another class. */
  datatype Value = Null | Str(s: string) | Dec(d: Decimal) | Opaque(className: string, isNumber: bool, payload: int)

  function TypeOf(v: Value): TypeTag
    requires v != Null
  {
    match v
    case Str(_) => StringType
    case Dec(_) => BigDecimalType
    case Opaque(name, isNumber, _) => OtherType(name, isNumber)
  }

  /** `target.isAssignableFrom(source)` for the classes modelled. */
  predicate IsAssignableFrom(target: TypeTag, source: TypeTag) {
    || target == ObjectType
    || target == source
    || (target == NumberType && (source == BigDecimalType || (source.OtherType? && source.isNumber)))
  }

  /** `target.isInstance(v)`: never true of null. */
  predicate IsInstance(target: TypeTag, v: Value) {
    v != Null && IsAssignableFrom(target, TypeOf(v))
  }

  /** `Class.cast`: null and instances pass unchanged, anything else is a `ClassCastException`. */
  function Cast(target: TypeTag, v: Value): (r: Result<Value, Exception>)
    ensures r.Ok? <==> v == Null || IsInstance(target, v)
    ensures r.Ok? ==> r.value == v
    ensures r.Err? ==> r.error == ClassCastException
  {
    if v == Null || IsInstance(target, v) then Ok(v) else Err(ClassCastException)
  }
}
