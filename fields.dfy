/**
 * `Field` and `SimpleField`: a named, numbered slot of a record with the type of its value, a
 * nullable flag and an optional converter. Identity is the name, ordinal, type and flag; the
 * converter takes no part in it.
 */
module Fields {
  import opened Wrappers
  import opened Exceptions
  import opened Types
  import JavaText
  import Converters

  datatype Field = Field(
    name: string,
    ordinal: nat,
    fieldType: TypeTag,
    nullable: bool,
    converter: Option<Converters.Converter>)

  predicate Valid(f: Field) {
    f.converter.Some? ==> Converters.Valid(f.converter.value)
  }

  /**
   * The five-argument constructor: `requireNonNull` rejects a null name, then a null type;
   * the other arguments are kept as given, so the accessors return them.
   */
  function NewField(name: Option<string>, ordinal: nat, fieldType: Option<TypeTag>, nullable: bool,
                    converter: Option<Converters.Converter>): (r: Result<Field, Exception>)
    ensures r.Ok? <==> name.Some? && fieldType.Some?
    ensures r.Err? ==> r.error == NullPointerException
    ensures r.Ok? ==> && r.value.name == name.value
                      && r.value.ordinal == ordinal
                      && r.value.fieldType == fieldType.value
                      && r.value.nullable == nullable
                      && r.value.converter == converter
  {
    match (name, fieldType)
    case (Some(n), Some(t)) => Ok(Field(n, ordinal, t, nullable, converter))
    case _ => Err(NullPointerException)
  }

  /** The four-argument constructor makes a nullable field, as `Field.nullable` does by default. */
  function NewNullableField(name: Option<string>, ordinal: nat, fieldType: Option<TypeTag>,
                            converter: Option<Converters.Converter>): (r: Result<Field, Exception>)
    ensures r.Ok? <==> name.Some? && fieldType.Some?
    ensures r.Ok? ==> r.value.nullable && r == NewField(name, ordinal, fieldType, true, converter)
  {
    NewField(name, ordinal, fieldType, true, converter)
  }

  /** `Field.cast`: `type().cast(value)`. */
  function Cast(f: Field, v: Value): (r: Result<Value, Exception>)
    ensures r.Ok? <==> v == Null || IsInstance(f.fieldType, v)
    ensures r.Ok? ==> r.value == v
    ensures r.Err? ==> r.error == ClassCastException
  {
    Types.Cast(f.fieldType, v)
  }

  /**
   * `SimpleField.convert`: without a converter it is `Field.convert`, which only casts; with
   * one it is the converter's `castAndConvert`.
   */
  function Convert(f: Field, v: Value): (r: Result<Value, Exception>)
    requires Valid(f)
    ensures f.converter.None? ==> r == Cast(f, v)
    ensures f.converter.Some? ==> r == Converters.CastAndConvert(f.converter.value, v)
  {
    match f.converter
    case None => Cast(f, v)
    case Some(c) => Converters.CastAndConvert(c, v)
  }

  /** `equals`: name, ordinal, type and nullable flag agree; the converter takes no part. */
  predicate Equals(a: Field, b: Field): (r: bool)
    ensures r <==> a.(converter := None) == b.(converter := None)
  {
    a.name == b.name && a.ordinal == b.ordinal && a.fieldType == b.fieldType && a.nullable == b.nullable
  }

  /** `toString` is the name: the same text for every field equal to `f`, and `f`'s own name. */
  function ToString(f: Field): (r: string)
    ensures forall g :: Equals(f, g) ==> r == g.name
  {
    f.name
  }

  /** `equals` is an equivalence relation. */
  lemma EqualsIsEquivalence(a: Field, b: Field, c: Field)
    ensures Equals(a, a)
    ensures Equals(a, b) ==> Equals(b, a)
    ensures Equals(a, b) && Equals(b, c) ==> Equals(a, c)
  {
  }

  /** Two fields that differ only in their converters are equal. */
  lemma EqualsIgnoresConverter(f: Field, c: Option<Converters.Converter>)
    ensures Equals(f, f.(converter := c))
  {
  }

  /** Equal fields of the same converter are the same value. */
  lemma EqualsDeterminesField(a: Field, b: Field)
    requires Equals(a, b) && a.converter == b.converter
    ensures a == b
  {
  }

  /** `java.lang.Integer` arithmetic: wrap to 32-bit two's complement. */
  function Wrap32(x: int): (r: int)
    ensures -0x8000_0000 <= r < 0x8000_0000
    ensures (r - x) % 0x1_0000_0000 == 0
  {
    var m := x % 0x1_0000_0000;
    if m >= 0x8000_0000 then m - 0x1_0000_0000 else m
  }

  /** The polynomial `u[0]*31^(n-1) + ... + u[n-1]` in unbounded integers, by Horner's rule. */
  function Polynomial(u: seq<int>): int {
    if |u| == 0 then 0 else 31 * Polynomial(u[..|u| - 1]) + u[|u| - 1]
  }

  /** Horner's rule over `u` in 32-bit arithmetic, wrapping after every step as `int` does. */
  function UnitsHash(u: seq<int>): (r: int)
    ensures -0x8000_0000 <= r < 0x8000_0000
  {
    if |u| == 0 then 0 else Wrap32(31 * UnitsHash(u[..|u| - 1]) + u[|u| - 1])
  }

  /** The wrapped hash is the polynomial modulo 2^32: wrapping after each step loses nothing else. */
  lemma {:induction false} UnitsHashPolynomial(u: seq<int>)
    ensures (UnitsHash(u) - Polynomial(u)) % 0x1_0000_0000 == 0
  {
    if |u| > 0 {
      var p := u[..|u| - 1];
      var c := u[|u| - 1];
      UnitsHashPolynomial(p);
      var x := 31 * UnitsHash(p) + c;
      assert UnitsHash(u) == Wrap32(x) && Polynomial(u) == 31 * Polynomial(p) + c;
      var k := (UnitsHash(p) - Polynomial(p)) / 0x1_0000_0000;
      var j := (Wrap32(x) - x) / 0x1_0000_0000;
      assert UnitsHash(p) - Polynomial(p) == k * 0x1_0000_0000;
      assert Wrap32(x) - x == j * 0x1_0000_0000;
      assert UnitsHash(u) - Polynomial(u) == (j + 31 * k) * 0x1_0000_0000;
      MultipleOfWord(j + 31 * k);
    }
  }

  /** A multiple of 2^32 is 0 modulo 2^32. */
  lemma MultipleOfWord(y: int)
    ensures (y * 0x1_0000_0000) % 0x1_0000_0000 == 0
  {
  }

  /**
   * `String.hashCode`: Horner's rule with 31 over the string's UTF-16 code units, in 32-bit
   * arithmetic. A character above U+FFFF contributes both units of its surrogate pair.
   */
  function StringHash(s: string): (r: int)
    ensures -0x8000_0000 <= r < 0x8000_0000
    ensures (r - Polynomial(JavaText.Utf16(s))) % 0x1_0000_0000 == 0
  {
    UnitsHashPolynomial(JavaText.Utf16(s));
    UnitsHash(JavaText.Utf16(s))
  }

  /** U+10000 hashes as its surrogate pair: `31 * 0xD800 + 0xDC00`, not its code point 0x10000. */
  lemma StringHashBySurrogates()
    ensures StringHash("\U{10000}") == 31 * 0xD800 + 0xDC00 == 1770496
  {
    assert JavaText.Utf16("\U{10000}") == [0xD800, 0xDC00];
    assert [0xD800, 0xDC00][..1] == [0xD800];
    assert [0xD800][..0] == [];
  }

  /**
   * `hashCode`: `Objects.hash(name, ordinal, type, nullable)`, which is `Arrays.hashCode` of the
   * four: starting from 1, each step multiplies by 31 and adds the next element's hash. Folding
   * `[1]` followed by those hashes from 0 is the same, since `31 * 0 + 1 == 1`. An `Integer`
   * hashes as its value, a `Boolean` as 1231 or 1237, and a `Class` object as its identity hash,
   * given here as `classHash`.
   */
  function HashCode(f: Field, classHash: TypeTag -> int): (r: int)
    ensures -0x8000_0000 <= r < 0x8000_0000
    ensures var u := [1, StringHash(f.name), f.ordinal, classHash(f.fieldType), if f.nullable then 1231 else 1237];
      (r - Polynomial(u)) % 0x1_0000_0000 == 0
  {
    var u := [1, StringHash(f.name), f.ordinal, classHash(f.fieldType), if f.nullable then 1231 else 1237];
    UnitsHashPolynomial(u);
    UnitsHash(u)
  }

  /** `hashCode` is consistent with `equals`, whatever the identity hashes of the classes. */
  lemma HashCodeConsistent(a: Field, b: Field, classHash: TypeTag -> int)
    requires Equals(a, b)
    ensures HashCode(a, classHash) == HashCode(b, classHash)
  {
  }
}
