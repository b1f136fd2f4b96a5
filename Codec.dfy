/**
 * What each protocol type does to a message, as functions: the bytes a
 * write emits (or the first exception it raises), the value and cursor a
 * read produces, the size a value needs and the outcome of validation.
 * Composite types fold over their items and fields left to right, exactly
 * as the PHP loops do.
 */
module Codec {
  import opened Wire
  import opened Errors
  import opened Binary
  import opened Types

  // ---------------------------------------------------------------- fields

  /** The map a PHP array presents to `$structure[...]`; a list has no named keys. */
  function Entries(v: Value): map<string, Value> {
    if v.VMap? then v.entries else map[]
  }

  /** `$structure[$name] ?? null` */
  function Lookup(structure: map<string, Value>, name: string): Value {
    if name in structure then structure[name] else VNull
  }

  /** Field::extractValue: a missing or null entry is an error unless the field's type is nullable. */
  function ExtractValue(f: Field, structure: map<string, Value>): (r: Result<Value>)
    ensures f.name in structure && structure[f.name] != VNull ==> r == Success(structure[f.name])
    ensures r.Success? && r.value == VNull ==> IsNullable(f.typ)
    ensures r.Failure? <==> Lookup(structure, f.name) == VNull && !IsNullable(f.typ)
    ensures r.Failure? ==> r.error == MissingField(f.name)
  {
    if Lookup(structure, f.name) == VNull && !IsNullable(f.typ) then Failure(MissingField(f.name))
    else Success(Lookup(structure, f.name))
  }

  // ---------------------------------------------------------------- write

  /** A typed integer write: PHP's strict types refuse anything but an int. */
  function EncodeInteger(f: NumberFormat, v: Value, room: int): Result<seq<Byte>> {
    if v.VInt? then PutNumber(f, v.i, room) else Failure(TypeMismatch)
  }

  /** A length prefix in format `f` followed by the bytes themselves. */
  function EncodeBlob(f: NumberFormat, data: seq<Byte>, room: int): (r: Result<seq<Byte>>)
    ensures r.Success? ==> |r.value| == f.Width() + |data| <= room
  {
    var header :- PutNumber(f, |data|, room);
    if room - f.Width() < |data| then Failure(NotEnoughBytesAllocated(|data|))
    else Success(header + data)
  }

  /**
   * Type::write into a message with `room` bytes left at its cursor: the
   * bytes written from the cursor on, or the first exception raised.
   */
  function Encode(t: Type, v: Value, room: int): (r: Result<seq<Byte>>)
    decreases t, 2, 0
  {
    match t
    case Int8 => EncodeInteger(SignedByte, v, room)
    case Int16 => EncodeInteger(SignedShort, v, room)
    case Int32 => EncodeInteger(SignedInt, v, room)
    case Int64 => EncodeInteger(SignedLong, v, room)
    case UnsignedInt32 => EncodeInteger(UnsignedInt, v, room)
    case Boolean => PutNumber(SignedByte, if v == VBool(true) then 1 else 0, room)
    case NonNullableString =>
      if v.VString? then EncodeBlob(SignedShort, v.s, room) else Failure(TypeMismatch)
    case NullableString =>
      if v == VNull then PutNumber(SignedShort, -1, room)
      else if v.VString? then EncodeBlob(SignedShort, v.s, room)
      else Failure(TypeMismatch)
    case NonNullableBytes =>
      if v.VBuffer? then EncodeBlob(SignedInt, v.rest, room) else Failure(TypeMismatch)
    case NullableBytes =>
      if v.VBuffer? then EncodeBlob(SignedInt, v.rest, room) else PutNumber(SignedInt, -1, room)
    case ArrayOf(_, _) =>
      if v == VNull then PutNumber(SignedInt, -1, room)
      else if !v.VList? then Failure(TypeMismatch)
      else
        var header :- PutNumber(SignedInt, |v.items|, room);
        var body :- EncodeItems(t, v.items, room - 4);
        Success(header + body)
    case Schema(_) =>
      if HasKind(v, IsArray) then EncodeFields(t, |t.fields|, Entries(v), room)
      else Failure(TypeMismatch)
  }

  /** The items of an array written one after the other. */
  function EncodeItems(t: Type, items: seq<Value>, room: int): (r: Result<seq<Byte>>)
    requires t.ArrayOf?
    decreases t, 1, |items|
  {
    if items == [] then Success([])
    else
      var init :- EncodeItems(t, items[..|items| - 1], room);
      var last :- EncodeItem(t, items[|items| - 1], room - |init|);
      Success(init + last)
  }

  /** One item of an array, written as the array's item type writes it. */
  function EncodeItem(t: Type, v: Value, room: int): (r: Result<seq<Byte>>)
    requires t.ArrayOf?
    decreases t.item, 3, 0
  {
    Encode(t.item, v, room)
  }

  /** The first `n` fields of a schema written one after the other. */
  function EncodeFields(t: Type, n: nat, structure: map<string, Value>, room: int): (r: Result<seq<Byte>>)
    requires t.Schema? && n <= |t.fields|
    decreases t, 1, n
  {
    if n == 0 then Success([])
    else
      var init :- EncodeFields(t, n - 1, structure, room);
      var last :- EncodeField(t.fields[n - 1], structure, room - |init|);
      Success(init + last)
  }

  /** Field::writeTo */
  function EncodeField(f: Field, structure: map<string, Value>, room: int): (r: Result<seq<Byte>>)
    decreases f.typ, 3, 0
  {
    var value :- ExtractValue(f, structure);
    Encode(f.typ, value, room)
  }

  // ---------------------------------------------------------------- sizeOf

  /** Type::sizeOf: the bytes a write of `v` will take, or the error computing it raises. */
  function SizeOf(t: Type, v: Value): (r: Result<int>)
    ensures r.Success? ==> r.value >= 0
    decreases t, 2, 0
  {
    match t
    case Int8 => Success(1)
    case Boolean => Success(1)
    case Int16 => Success(2)
    case Int32 => Success(4)
    case UnsignedInt32 => Success(4)
    case Int64 => Success(8)
    case NonNullableString =>
      if v.VString? then Success(2 + |v.s|) else Failure(TypeMismatch)
    case NullableString =>
      if v == VNull then Success(2)
      else if v.VString? then Success(2 + |v.s|)
      else Failure(TypeMismatch)
    case NonNullableBytes =>
      if v.VBuffer? then Success(4 + |v.rest|) else Failure(TypeMismatch)
    case NullableBytes =>
      if v.VBuffer? then Success(4 + |v.rest|) else Success(4)
    case ArrayOf(_, _) =>
      if v.VList? then
        var body :- SizeItems(t, v.items);
        Success(4 + body)
      else if v.VMap? then Failure(TypeMismatch)
      else Success(4)
    case Schema(_) =>
      if HasKind(v, IsArray) then SizeFields(t, |t.fields|, Entries(v)) else Failure(TypeMismatch)
  }

  function SizeItems(t: Type, items: seq<Value>): (r: Result<int>)
    requires t.ArrayOf?
    ensures r.Success? ==> r.value >= 0
    decreases t, 1, |items|
  {
    if items == [] then Success(0)
    else
      var init :- SizeItems(t, items[..|items| - 1]);
      var last :- SizeItem(t, items[|items| - 1]);
      Success(init + last)
  }

  /** The size of one item of an array, as the array's item type computes it. */
  function SizeItem(t: Type, v: Value): (r: Result<int>)
    requires t.ArrayOf?
    ensures r.Success? ==> r.value >= 0
    decreases t.item, 3, 0
  {
    SizeOf(t.item, v)
  }

  function SizeFields(t: Type, n: nat, structure: map<string, Value>): (r: Result<int>)
    requires t.Schema? && n <= |t.fields|
    ensures r.Success? ==> r.value >= 0
    decreases t, 1, n
  {
    if n == 0 then Success(0)
    else
      var init :- SizeFields(t, n - 1, structure);
      var last :- FieldSize(t.fields[n - 1], structure);
      Success(init + last)
  }

  /** Field::sizeOf */
  function FieldSize(f: Field, structure: map<string, Value>): (r: Result<int>)
    ensures r.Success? ==> r.value >= 0
    decreases f.typ, 3, 0
  {
    var value :- ExtractValue(f, structure);
    SizeOf(f.typ, value)
  }

  // ---------------------------------------------------------------- read

  function DecodeInteger(f: NumberFormat, s: seq<Byte>, p: nat): (r: Result<(Value, nat)>)
    requires p <= |s|
    requires LONG_MIN <= f.Lower() && f.Upper() <= LONG_MAX
    ensures r.Success? ==> p <= r.value.1 <= |s|
  {
    var n :- TakeNumber(f, s, p);
    Success((VInt(n.0), n.1))
  }

  /**
   * Type::read from a message holding `s` with its cursor at `p`: the value
   * read and the cursor after it, or the first exception raised.
   */
  function Decode(t: Type, s: seq<Byte>, p: nat): (r: Result<(Value, nat)>)
    requires p <= |s|
    ensures r.Success? ==> p <= r.value.1 <= |s|
    decreases t, 2, 0
  {
    match t
    case Int8 => DecodeInteger(SignedByte, s, p)
    case Int16 => DecodeInteger(SignedShort, s, p)
    case Int32 => DecodeInteger(SignedInt, s, p)
    case Int64 => DecodeInteger(SignedLong, s, p)
    case UnsignedInt32 => DecodeInteger(UnsignedInt, s, p)
    case Boolean =>
      var n :- TakeNumber(SignedByte, s, p);
      Success((VBool(n.0 != 0), n.1))
    case NonNullableString =>
      var n :- TakeNumber(SignedShort, s, p);
      if n.0 < 0 then Failure(NegativeLength(n.0))
      else
        var body :- Take(s, n.1, n.0);
        Success((VString(body), n.1 + n.0))
    case NullableString =>
      var n :- TakeNumber(SignedShort, s, p);
      if n.0 < 0 then Success((VNull, n.1))
      else
        var body :- Take(s, n.1, n.0);
        Success((VString(body), n.1 + n.0))
    case NonNullableBytes =>
      var n :- TakeNumber(SignedInt, s, p);
      if n.0 < 0 then Failure(NegativeLength(n.0))
      else
        var body :- Take(s, n.1, n.0);
        Success((VBuffer([], body), n.1 + n.0))
    case NullableBytes =>
      var n :- TakeNumber(SignedInt, s, p);
      if n.0 < 0 then Success((VNull, n.1))
      else
        var body :- Take(s, n.1, n.0);
        Success((VBuffer([], body), n.1 + n.0))
    case ArrayOf(_, _) =>
      var n :- TakeNumber(SignedInt, s, p);
      if n.0 < 0 then Success((VNull, n.1))
      else
        var items :- DecodeItems(t, n.0, s, n.1);
        Success((VList(items.0), items.1))
    case Schema(_) =>
      var structure :- DecodeFields(t, |t.fields|, s, p);
      Success((VMap(structure.0), structure.1))
  }

  /** `n` items read one after the other. */
  function DecodeItems(t: Type, n: nat, s: seq<Byte>, p: nat): (r: Result<(seq<Value>, nat)>)
    requires t.ArrayOf? && p <= |s|
    ensures r.Success? ==> |r.value.0| == n && p <= r.value.1 <= |s|
    decreases t, 1, n
  {
    if n == 0 then Success(([], p))
    else
      var init :- DecodeItems(t, n - 1, s, p);
      var last :- DecodeItem(t, s, init.1);
      Success((init.0 + [last.0], last.1))
  }

  /** One item of an array, read as the array's item type reads it. */
  function DecodeItem(t: Type, s: seq<Byte>, p: nat): (r: Result<(Value, nat)>)
    requires t.ArrayOf? && p <= |s|
    ensures r.Success? ==> p <= r.value.1 <= |s|
    decreases t.item, 3, 0
  {
    Decode(t.item, s, p)
  }

  /** The first `n` fields of a schema read one after the other into a structure keyed by name. */
  function DecodeFields(t: Type, n: nat, s: seq<Byte>, p: nat): (r: Result<(map<string, Value>, nat)>)
    requires t.Schema? && n <= |t.fields| && p <= |s|
    ensures r.Success? ==> p <= r.value.1 <= |s|
    decreases t, 1, n
  {
    if n == 0 then Success((map[], p))
    else
      var init :- DecodeFields(t, n - 1, s, p);
      var last :- DecodeField(t.fields[n - 1], s, init.1);
      Success((init.0[t.fields[n - 1].name := last.0], last.1))
  }

  /** Field::readFrom */
  function DecodeField(f: Field, s: seq<Byte>, p: nat): (r: Result<(Value, nat)>)
    requires p <= |s|
    ensures r.Success? ==> p <= r.value.1 <= |s|
    decreases f.typ, 3, 0
  {
    Decode(f.typ, s, p)
  }

  // ---------------------------------------------------------------- validate

  function ValidateInteger(v: Value, lower: int, upper: int): Outcome {
    GuardAgainstNull(v, "integer").Then(GuardType(v, "integer", IsInt)).Then(GuardRange(v, lower, upper))
  }

  /** Type::validate: Pass, or the first SchemaValidationFailure raised. */
  function Validate(t: Type, v: Value): Outcome
    decreases t, 2, 0
  {
    match t
    case Int8 => ValidateInteger(v, BYTE_MIN, BYTE_MAX)
    case Int16 => ValidateInteger(v, SHORT_MIN, SHORT_MAX)
    case Int32 => ValidateInteger(v, INT_MIN, INT_MAX)
    case UnsignedInt32 => ValidateInteger(v, UNSIGNED_INT_MIN, UNSIGNED_INT_MAX)
    case Int64 => GuardAgainstNull(v, "integer").Then(GuardType(v, "integer", IsInt))
    case Boolean => GuardAgainstNull(v, "boolean").Then(GuardType(v, "boolean", IsBool))
    case NonNullableString =>
      GuardAgainstNull(v, "string").Then(GuardType(v, "string", IsString)).Then(GuardLength(v, MAX_STRING_LENGTH))
    case NullableString =>
      GuardType(v, "string", IsString).Then(GuardLength(v, MAX_STRING_LENGTH))
    case NonNullableBytes =>
      GuardAgainstNull(v, BUFFER_CLASS).Then(GuardType(v, "object", IsObject)).Then(GuardClass(v, BUFFER_CLASS))
    case NullableBytes =>
      GuardType(v, "object", IsObject).Then(GuardClass(v, BUFFER_CLASS))
    case ArrayOf(_, nullable) =>
      var notNull := if nullable then Pass else GuardAgainstNull(v, "array");
      if notNull.Fail? || v == VNull then notNull
      else
        GuardType(v, "array", IsArray).Then(if v.VList? then ValidateItems(t, v.items) else Fail(TypeMismatch))
    case Schema(_) =>
      GuardAgainstNull(v, "array").Then(GuardType(v, "array", IsArray)).Then(ValidateFields(t, |t.fields|, Entries(v)))
  }

  function ValidateItems(t: Type, items: seq<Value>): Outcome
    requires t.ArrayOf?
    decreases t, 1, |items|
  {
    if items == [] then Pass
    else ValidateItems(t, items[..|items| - 1]).Then(Validate(t.item, items[|items| - 1]))
  }

  /** Schema::validate's loop: each field through Schema::validateField, which names the field on failure. */
  function ValidateFields(t: Type, n: nat, structure: map<string, Value>): Outcome
    requires t.Schema? && n <= |t.fields|
    decreases t, 1, n
  {
    if n == 0 then Pass
    else
      var f := t.fields[n - 1];
      var outcome := ValidateField(f, structure);
      ValidateFields(t, n - 1, structure).Then(
        if outcome.Fail? then Fail(InvalidValueForField(f.name, outcome.error)) else Pass)
  }

  /** Field::validate */
  function ValidateField(f: Field, structure: map<string, Value>): Outcome
    decreases f.typ, 3, 0
  {
    match ExtractValue(f, structure)
    case Failure(e) => Fail(e)
    case Success(value) => Validate(f.typ, value)
  }

  // ---------------------------------------------------------------- what a read gives back

  /**
   * The value a read returns for bytes a write of `v` produced: booleans
   * come back as `=== true`, byte buffers as fresh buffers over their
   * remaining bytes, null-coded values as null, and schemas as the
   * structure of exactly their fields.
   */
  function Norm(t: Type, v: Value): Value
    decreases t, 2, 0
  {
    match t
    case Boolean => VBool(v == VBool(true))
    case NonNullableBytes => if v.VBuffer? then VBuffer([], v.rest) else VNull
    case NullableBytes => if v.VBuffer? then VBuffer([], v.rest) else VNull
    case ArrayOf(_, _) => if v.VList? then VList(NormItems(t, v.items)) else VNull
    case Schema(_) => VMap(NormFields(t, |t.fields|, Entries(v)))
    case _ => v
  }

  function NormItems(t: Type, items: seq<Value>): (r: seq<Value>)
    requires t.ArrayOf?
    ensures |r| == |items|
    decreases t, 1, |items|
  {
    if items == [] then []
    else NormItems(t, items[..|items| - 1]) + [NormItem(t, items[|items| - 1])]
  }

  /** What a read of one item gives back after a write of `v`. */
  function NormItem(t: Type, v: Value): Value
    requires t.ArrayOf?
    decreases t.item, 3, 0
  {
    Norm(t.item, v)
  }

  function NormFields(t: Type, n: nat, structure: map<string, Value>): map<string, Value>
    requires t.Schema? && n <= |t.fields|
    decreases t, 1, n
  {
    if n == 0 then map[]
    else
      NormFields(t, n - 1, structure)[t.fields[n - 1].name := NormField(t.fields[n - 1], structure)]
  }

  /** What a read of field `f` gives back after a write of `structure`. */
  function NormField(f: Field, structure: map<string, Value>): Value
    decreases f.typ, 3, 0
  {
    Norm(f.typ, Lookup(structure, f.name))
  }

  /**
   * Lengths that fit their 32-bit prefixes: array counts and byte-buffer
   * lengths are written with writeInt. (String lengths are bounded by
   * validation itself.)
   */
  predicate Bounded(t: Type, v: Value)
    decreases t, 2, 0
  {
    match t
    case NonNullableBytes => v.VBuffer? ==> |v.rest| <= INT_MAX
    case NullableBytes => v.VBuffer? ==> |v.rest| <= INT_MAX
    case ArrayOf(_, _) => v.VList? ==> |v.items| <= INT_MAX && BoundedItems(t, v.items)
    case Schema(_) => BoundedFields(t, |t.fields|, Entries(v))
    case _ => true
  }

  predicate BoundedItems(t: Type, items: seq<Value>)
    requires t.ArrayOf?
    decreases t, 1, |items|
  {
    items != [] ==> BoundedItems(t, items[..|items| - 1]) && Bounded(t.item, items[|items| - 1])
  }

  predicate BoundedFields(t: Type, n: nat, structure: map<string, Value>)
    requires t.Schema? && n <= |t.fields|
    decreases t, 1, n
  {
    n > 0 ==>
      BoundedFields(t, n - 1, structure) && Bounded(t.fields[n - 1].typ, Lookup(structure, t.fields[n - 1].name))
  }

  /** Types whose read gives back exactly a valid value that was written: no buffers, no schemas. */
  predicate ReadsBackVerbatim(t: Type) {
    match t
    case NonNullableBytes | NullableBytes | Schema(_) => false
    case ArrayOf(item, _) => ReadsBackVerbatim(item)
    case _ => true
  }
}
