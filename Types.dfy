/**
 * The values a schema is applied to (the PHP values a caller hands over or
 * gets back) and the protocol types, with the validation guards every type
 * builds its checks from.
 */
module Types {
  import opened Wire
  import opened Errors

  /**
   * A PHP value as the codec sees it. A Buffer object is captured by its
   * bytes: those before its cursor (`consumed`) and those from it onwards
   * (`rest`); any other object only by the classes it is an instance of.
   */
  datatype Value =
    | VNull
    | VBool(b: bool)
    | VInt(i: PhpInt)
    | VFloat(f: real)
    | VString(s: seq<Byte>)
    | VBuffer(consumed: seq<Byte>, rest: seq<Byte>)
    | VObject(classes: set<string>)
    | VList(items: seq<Value>)
    | VMap(entries: map<string, Value>)

  /** The protocol types; a Schema is itself a type (a record of named fields). */
  datatype Type =
    | Int8
    | Int16
    | Int32
    | Int64
    | UnsignedInt32
    | Boolean
    | NonNullableString
    | NullableString
    | NonNullableBytes
    | NullableBytes
    | ArrayOf(item: Type, nullable: bool)
    | Schema(fields: seq<Field>)

  /** A named, typed member of a schema. */
  datatype Field = Field(name: string, typ: Type)

  const BUFFER_CLASS: string := "Lcobucci\\Kafka\\Protocol\\Buffer"

  /** Longest string a (non-)nullable string type accepts: 2^15 - 1 bytes. */
  const MAX_STRING_LENGTH: int := 32767

  /** Type::isNullable, overridden by the nullable types and by ArrayOf. */
  function IsNullable(t: Type): bool {
    match t
    case NullableString | NullableBytes => true
    case ArrayOf(_, nullable) => nullable
    case _ => false
  }

  /** The is_* predicates the guards are given. */
  datatype Kind = IsInt | IsBool | IsString | IsArray | IsObject

  predicate HasKind(v: Value, k: Kind) {
    match k
    case IsInt => v.VInt?
    case IsBool => v.VBool?
    case IsString => v.VString?
    case IsArray => v.VList? || v.VMap?
    case IsObject => v.VBuffer? || v.VObject?
  }

  /** `$v instanceof $className`; a VObject stands for an object of a class other than Buffer. */
  predicate InstanceOf(v: Value, className: string) {
    if v.VBuffer? then className == BUFFER_CLASS
    else v.VObject? && className in v.classes && className != BUFFER_CLASS
  }

  /** guardAgainstNull: only null is refused. */
  function GuardAgainstNull(v: Value, expected: string): (r: Outcome)
    ensures r.Pass? <==> v != VNull
    ensures r.Fail? ==> r.error == NullValue(expected)
  {
    if v == VNull then Fail(NullValue(expected)) else Pass
  }

  /** guardType: null is let through; anything else must satisfy the kind test. */
  function GuardType(v: Value, expected: string, k: Kind): (r: Outcome)
    ensures r.Pass? <==> v == VNull || HasKind(v, k)
    ensures r.Fail? ==> r.error == IncorrectType(expected)
  {
    if v != VNull && !HasKind(v, k) then Fail(IncorrectType(expected)) else Pass
  }

  /** guardClass: null and non-objects are let through; objects must be instances of the class. */
  function GuardClass(v: Value, className: string): (r: Outcome)
    ensures r.Pass? <==> !(v.VBuffer? || v.VObject?) || InstanceOf(v, className)
    ensures r.Fail? ==> r.error == IncorrectClass(className)
  {
    if (v.VBuffer? || v.VObject?) && !InstanceOf(v, className) then Fail(IncorrectClass(className)) else Pass
  }

  /** guardRange: integers outside [lower, upper] are refused. */
  function GuardRange(v: Value, lower: int, upper: int): (r: Outcome)
    ensures r.Pass? <==> !v.VInt? || lower <= v.i <= upper
    ensures r.Fail? ==> r.error == IncorrectRange(v.i, lower, upper)
  {
    if v.VInt? && (v.i < lower || v.i > upper) then Fail(IncorrectRange(v.i, lower, upper)) else Pass
  }

  /** guardLength: null is let through; strings longer than `max` bytes are refused. */
  function GuardLength(v: Value, max: int): (r: Outcome)
    ensures r.Pass? <==> !v.VString? || |v.s| <= max
    ensures r.Fail? ==> r.error == IncorrectLength(|v.s|, max)
  {
    if v.VString? && |v.s| > max then Fail(IncorrectLength(|v.s|, max)) else Pass
  }
}
