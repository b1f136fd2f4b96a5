/**
 * What the codec promises across operations: the size computed ahead of a
 * write is the size the write takes, a read of what a write produced gives
 * the value back, validated values always write, and reads ignore what
 * follows the bytes they consume.
 */
module CodecLemmas {
  import opened Wire
  import opened Errors
  import opened Binary
  import opened Types
  import opened Codec

  /** A slice equal to a concatenation splits into the two parts. */
  lemma SliceSplit(s: seq<Byte>, p: nat, a: seq<Byte>, b: seq<Byte>)
    requires p + |a| + |b| <= |s| && s[p..p + |a| + |b|] == a + b
    ensures s[p..p + |a|] == a && s[p + |a|..p + |a| + |b|] == b
  {
    assert s[p..p + |a|] == s[p..p + |a| + |b|][..|a|];
    assert s[p + |a|..p + |a| + |b|] == s[p..p + |a| + |b|][|a|..];
  }

  // ------------------------------------------------------------ size fidelity

  /** sizeOf predicts exactly the bytes write emits, and a write never exceeds the room it had. */
  lemma {:induction false} SizeOfMatchesWrite(t: Type, v: Value, room: int)
    requires room >= 0 && Encode(t, v, room).Success?
    ensures SizeOf(t, v) == Success(|Encode(t, v, room).value|)
    ensures |Encode(t, v, room).value| <= room
    decreases t, 2, 0
  {
    match t
    case ArrayOf(_, _) =>
      if v.VList? {
        SizeOfMatchesWriteItems(t, v.items, room - 4);
      }
    case Schema(_) =>
      SizeOfMatchesWriteFields(t, |t.fields|, Entries(v), room);
    case _ =>
  }

  lemma {:induction false} SizeOfMatchesWriteItems(t: Type, items: seq<Value>, room: int)
    requires t.ArrayOf? && room >= 0 && EncodeItems(t, items, room).Success?
    ensures SizeItems(t, items) == Success(|EncodeItems(t, items, room).value|)
    ensures |EncodeItems(t, items, room).value| <= room
    decreases t, 1, |items|
  {
    if items != [] {
      var init := items[..|items| - 1];
      SizeOfMatchesWriteItems(t, init, room);
      var written := EncodeItems(t, init, room).value;
      SizeOfMatchesWrite(t.item, items[|items| - 1], room - |written|);
    }
  }

  lemma {:induction false} SizeOfMatchesWriteFields(t: Type, n: nat, structure: map<string, Value>, room: int)
    requires t.Schema? && n <= |t.fields| && room >= 0 && EncodeFields(t, n, structure, room).Success?
    ensures SizeFields(t, n, structure) == Success(|EncodeFields(t, n, structure, room).value|)
    ensures |EncodeFields(t, n, structure, room).value| <= room
    decreases t, 1, n
  {
    if n > 0 {
      SizeOfMatchesWriteFields(t, n - 1, structure, room);
      var written := EncodeFields(t, n - 1, structure, room).value;
      var f := t.fields[n - 1];
      var value := ExtractValue(f, structure).value;
      SizeOfMatchesWrite(f.typ, value, room - |written|);
    }
  }

  // ------------------------------------------------------------ read after write

  /** A length-prefixed blob reads back from where it was written. */
  lemma BlobRoundTrip(f: NumberFormat, data: seq<Byte>, room: int, s: seq<Byte>, p: nat)
    requires f == SignedShort || f == SignedInt
    requires EncodeBlob(f, data, room).Success?
    requires p + |EncodeBlob(f, data, room).value| <= |s|
    requires s[p..p + |EncodeBlob(f, data, room).value|] == EncodeBlob(f, data, room).value
    ensures TakeNumber(f, s, p) == Success((|data|, p + f.Width()))
    ensures Take(s, p + f.Width(), |data|) == Success(data)
  {
    var header := PutNumber(f, |data|, room).value;
    SliceSplit(s, p, header, data);
    NumberRoundTrip(f, |data|, room, s, p);
  }

  /**
   * Reading, at the position a write started, the bytes that write
   * produced gives back the value written (as Norm describes it) and
   * leaves the cursor just after them.
   */
  lemma {:induction false} ReadAfterWrite(t: Type, v: Value, room: int, s: seq<Byte>, p: nat)
    requires Encode(t, v, room).Success?
    requires p + |Encode(t, v, room).value| <= |s|
    requires s[p..p + |Encode(t, v, room).value|] == Encode(t, v, room).value
    ensures Decode(t, s, p) == Success((Norm(t, v), p + |Encode(t, v, room).value|))
    decreases t, 2, 0
  {
    match t
    case ArrayOf(_, _) =>
      if v == VNull {
        ReadAfterWriteNullArray(t, v, room, s, p);
      } else {
        ReadAfterWriteList(t, v, room, s, p);
      }
    case Schema(_) => ReadAfterWriteRecord(t, v, room, s, p);
    case NonNullableString => ReadAfterWriteString(t, v, room, s, p);
    case NullableString => ReadAfterWriteNullableString(t, v, room, s, p);
    case NonNullableBytes => ReadAfterWriteBytes(t, v, room, s, p);
    case NullableBytes => ReadAfterWriteNullableBytes(t, v, room, s, p);
    case _ => ReadAfterWriteNumber(t, v, room, s, p);
  }

  /** A null array: a count of -1 and nothing else. */
  lemma ReadAfterWriteNullArray(t: Type, v: Value, room: int, s: seq<Byte>, p: nat)
    requires t.ArrayOf? && v == VNull && Encode(t, v, room).Success?
    requires p + |Encode(t, v, room).value| <= |s|
    requires s[p..p + |Encode(t, v, room).value|] == Encode(t, v, room).value
    ensures Decode(t, s, p) == Success((Norm(t, v), p + |Encode(t, v, room).value|))
  {
    NumberRoundTrip(SignedInt, -1, room, s, p);
  }

  /** A record: its fields, in order. */
  lemma ReadAfterWriteRecord(t: Type, v: Value, room: int, s: seq<Byte>, p: nat)
    requires t.Schema? && Encode(t, v, room).Success?
    requires p + |Encode(t, v, room).value| <= |s|
    requires s[p..p + |Encode(t, v, room).value|] == Encode(t, v, room).value
    ensures Decode(t, s, p) == Success((Norm(t, v), p + |Encode(t, v, room).value|))
    decreases t, 1, |t.fields| + 1
  {
    ReadAfterWriteFields(t, |t.fields|, Entries(v), room, s, p);
  }

  /** An array that is not null: its count, then its items. */
  lemma ReadAfterWriteList(t: Type, v: Value, room: int, s: seq<Byte>, p: nat)
    requires t.ArrayOf? && v.VList? && Encode(t, v, room).Success?
    requires p + |Encode(t, v, room).value| <= |s|
    requires s[p..p + |Encode(t, v, room).value|] == Encode(t, v, room).value
    ensures Decode(t, s, p) == Success((Norm(t, v), p + |Encode(t, v, room).value|))
    decreases t, 1, |v.items| + 1
  {
    var header := PutNumber(SignedInt, |v.items|, room).value;
    var body := EncodeItems(t, v.items, room - 4).value;
    SliceSplit(s, p, header, body);
    NumberRoundTrip(SignedInt, |v.items|, room, s, p);
    ReadAfterWriteItems(t, v.items, room - 4, s, p + 4);
  }

  lemma ReadAfterWriteNumber(t: Type, v: Value, room: int, s: seq<Byte>, p: nat)
    requires t.Int8? || t.Int16? || t.Int32? || t.Int64? || t.UnsignedInt32? || t.Boolean?
    requires Encode(t, v, room).Success?
    requires p + |Encode(t, v, room).value| <= |s|
    requires s[p..p + |Encode(t, v, room).value|] == Encode(t, v, room).value
    ensures Decode(t, s, p) == Success((Norm(t, v), p + |Encode(t, v, room).value|))
  {
    match t
    case Int8 => ReadAfterWriteInteger(SignedByte, v, room, s, p);
    case Int16 => ReadAfterWriteInteger(SignedShort, v, room, s, p);
    case Int32 => ReadAfterWriteInteger(SignedInt, v, room, s, p);
    case Int64 => ReadAfterWriteInteger(SignedLong, v, room, s, p);
    case UnsignedInt32 => ReadAfterWriteInteger(UnsignedInt, v, room, s, p);
    case Boolean => ReadAfterWriteBoolean(v, room, s, p);
  }

  /** An integer in format `f` reads back as written. */
  lemma ReadAfterWriteInteger(f: NumberFormat, v: Value, room: int, s: seq<Byte>, p: nat)
    requires LONG_MIN <= f.Lower() && f.Upper() <= LONG_MAX && EncodeInteger(f, v, room).Success?
    requires p + f.Width() <= |s| && s[p..p + f.Width()] == EncodeInteger(f, v, room).value
    ensures DecodeInteger(f, s, p) == Success((v, p + f.Width()))
  {
    NumberRoundTrip(f, v.i, room, s, p);
  }

  /** A boolean is written as the byte 1 or 0 and reads back as `v === true`. */
  lemma ReadAfterWriteBoolean(v: Value, room: int, s: seq<Byte>, p: nat)
    requires Encode(Boolean, v, room).Success?
    requires p + 1 <= |s| && s[p..p + 1] == Encode(Boolean, v, room).value
    ensures Decode(Boolean, s, p) == Success((VBool(v == VBool(true)), p + 1))
  {
    NumberRoundTrip(SignedByte, if v == VBool(true) then 1 else 0, room, s, p);
  }

  lemma ReadAfterWriteString(t: Type, v: Value, room: int, s: seq<Byte>, p: nat)
    requires t == NonNullableString && Encode(t, v, room).Success?
    requires p + |Encode(t, v, room).value| <= |s|
    requires s[p..p + |Encode(t, v, room).value|] == Encode(t, v, room).value
    ensures Decode(t, s, p) == Success((Norm(t, v), p + |Encode(t, v, room).value|))
  {
    BlobRoundTrip(SignedShort, v.s, room, s, p);
  }

  lemma ReadAfterWriteNullableString(t: Type, v: Value, room: int, s: seq<Byte>, p: nat)
    requires t == NullableString && Encode(t, v, room).Success?
    requires p + |Encode(t, v, room).value| <= |s|
    requires s[p..p + |Encode(t, v, room).value|] == Encode(t, v, room).value
    ensures Decode(t, s, p) == Success((Norm(t, v), p + |Encode(t, v, room).value|))
  {
    if v == VNull {
      NumberRoundTrip(SignedShort, -1, room, s, p);
    } else {
      BlobRoundTrip(SignedShort, v.s, room, s, p);
    }
  }

  lemma ReadAfterWriteBytes(t: Type, v: Value, room: int, s: seq<Byte>, p: nat)
    requires t == NonNullableBytes && Encode(t, v, room).Success?
    requires p + |Encode(t, v, room).value| <= |s|
    requires s[p..p + |Encode(t, v, room).value|] == Encode(t, v, room).value
    ensures Decode(t, s, p) == Success((Norm(t, v), p + |Encode(t, v, room).value|))
  {
    BlobRoundTrip(SignedInt, v.rest, room, s, p);
  }

  lemma ReadAfterWriteNullableBytes(t: Type, v: Value, room: int, s: seq<Byte>, p: nat)
    requires t == NullableBytes && Encode(t, v, room).Success?
    requires p + |Encode(t, v, room).value| <= |s|
    requires s[p..p + |Encode(t, v, room).value|] == Encode(t, v, room).value
    ensures Decode(t, s, p) == Success((Norm(t, v), p + |Encode(t, v, room).value|))
  {
    if v.VBuffer? {
      BlobRoundTrip(SignedInt, v.rest, room, s, p);
    } else {
      NumberRoundTrip(SignedInt, -1, room, s, p);
    }
  }

  lemma {:induction false} ReadAfterWriteItems(t: Type, items: seq<Value>, room: int, s: seq<Byte>, p: nat)
    requires t.ArrayOf? && EncodeItems(t, items, room).Success?
    requires p + |EncodeItems(t, items, room).value| <= |s|
    requires s[p..p + |EncodeItems(t, items, room).value|] == EncodeItems(t, items, room).value
    ensures DecodeItems(t, |items|, s, p) == Success((NormItems(t, items), p + |EncodeItems(t, items, room).value|))
    decreases t, 1, |items|
  {
    if items != [] {
      var _, _ := LastItemWritten(t, items, room, s, p);
      ReadAfterWriteItems(t, items[..|items| - 1], room, s, p);
      ReadAfterWriteItemsStep(t, items, room, s, p);
    }
  }

  /** The step of the induction: once all but the last item read back, all of them do. */
  lemma ReadAfterWriteItemsStep(t: Type, items: seq<Value>, room: int, s: seq<Byte>, p: nat)
    requires t.ArrayOf? && items != [] && EncodeItems(t, items, room).Success?
    requires p + |EncodeItems(t, items, room).value| <= |s|
    requires s[p..p + |EncodeItems(t, items, room).value|] == EncodeItems(t, items, room).value
    requires EncodeItems(t, items[..|items| - 1], room).Success?
    requires p + |EncodeItems(t, items[..|items| - 1], room).value| <= |s|
    requires DecodeItems(t, |items| - 1, s, p)
      == Success((NormItems(t, items[..|items| - 1]), p + |EncodeItems(t, items[..|items| - 1], room).value|))
    ensures DecodeItems(t, |items|, s, p) == Success((NormItems(t, items), p + |EncodeItems(t, items, room).value|))
    decreases t, 0, 1
  {
    var written, item := LastItemWritten(t, items, room, s, p);
    ReadAfterWriteLastItem(t, items, room - |written|, s, p, p + |written|, item);
  }

  /** How written items split: all but the last at the front, then the last one. */
  lemma LastItemWritten(t: Type, items: seq<Value>, room: int, s: seq<Byte>, p: nat) returns (written: seq<Byte>, item: seq<Byte>)
    requires t.ArrayOf? && items != [] && EncodeItems(t, items, room).Success?
    requires p + |EncodeItems(t, items, room).value| <= |s|
    requires s[p..p + |EncodeItems(t, items, room).value|] == EncodeItems(t, items, room).value
    ensures EncodeItems(t, items[..|items| - 1], room) == Success(written)
    ensures p + |EncodeItems(t, items[..|items| - 1], room).value| <= |s|
    ensures s[p..p + |EncodeItems(t, items[..|items| - 1], room).value|] == EncodeItems(t, items[..|items| - 1], room).value
    ensures Encode(t.item, items[|items| - 1], room - |written|) == Success(item)
    ensures |EncodeItems(t, items, room).value| == |written| + |item|
    ensures s[p..p + |written|] == written
    ensures s[p + |written|..p + |written| + |item|] == item
  {
    written := EncodeItems(t, items[..|items| - 1], room).value;
    item := Encode(t.item, items[|items| - 1], room - |written|).value;
    SliceSplit(s, p, written, item);
  }

  /** Once all but the last item read back up to `q`, the last one written at `q` reads back too. */
  lemma ReadAfterWriteLastItem(t: Type, items: seq<Value>, room: int, s: seq<Byte>, p: nat, q: nat, item: seq<Byte>)
    requires t.ArrayOf? && items != [] && p <= q && q + |item| <= |s|
    requires Encode(t.item, items[|items| - 1], room) == Success(item)
    requires s[q..q + |item|] == item
    requires DecodeItems(t, |items| - 1, s, p) == Success((NormItems(t, items[..|items| - 1]), q))
    ensures DecodeItems(t, |items|, s, p) == Success((NormItems(t, items), q + |item|))
    decreases t, 0, 0
  {
    ReadAfterWrite(t.item, items[|items| - 1], room, s, q);
  }

  lemma {:induction false} ReadAfterWriteFields(t: Type, n: nat, structure: map<string, Value>, room: int, s: seq<Byte>, p: nat)
    requires t.Schema? && n <= |t.fields| && EncodeFields(t, n, structure, room).Success?
    requires p + |EncodeFields(t, n, structure, room).value| <= |s|
    requires s[p..p + |EncodeFields(t, n, structure, room).value|] == EncodeFields(t, n, structure, room).value
    ensures DecodeFields(t, n, s, p) == Success((NormFields(t, n, structure), p + |EncodeFields(t, n, structure, room).value|))
    decreases t, 1, n
  {
    if n > 0 {
      var _, _ := LastFieldWritten(t, n, structure, room, s, p);
      ReadAfterWriteFields(t, n - 1, structure, room, s, p);
      ReadAfterWriteFieldsStep(t, n, structure, room, s, p);
    }
  }

  /** The step of the induction: once the first n - 1 fields read back, the first n do. */
  lemma ReadAfterWriteFieldsStep(t: Type, n: nat, structure: map<string, Value>, room: int, s: seq<Byte>, p: nat)
    requires t.Schema? && 0 < n <= |t.fields| && EncodeFields(t, n, structure, room).Success?
    requires p + |EncodeFields(t, n, structure, room).value| <= |s|
    requires s[p..p + |EncodeFields(t, n, structure, room).value|] == EncodeFields(t, n, structure, room).value
    requires EncodeFields(t, n - 1, structure, room).Success?
    requires p + |EncodeFields(t, n - 1, structure, room).value| <= |s|
    requires DecodeFields(t, n - 1, s, p)
      == Success((NormFields(t, n - 1, structure), p + |EncodeFields(t, n - 1, structure, room).value|))
    ensures DecodeFields(t, n, s, p) == Success((NormFields(t, n, structure), p + |EncodeFields(t, n, structure, room).value|))
    decreases t, 0, 1
  {
    var written, field := LastFieldWritten(t, n, structure, room, s, p);
    assert DecodeFields(t, n - 1, s, p) == Success((NormFields(t, n - 1, structure), p + |written|));
    ReadAfterWriteLastField(t, n, structure, room - |written|, s, p, p + |written|, field);
  }

  /** How `n` written fields split: the first n - 1 at the front, then the last one. */
  lemma LastFieldWritten(t: Type, n: nat, structure: map<string, Value>, room: int, s: seq<Byte>, p: nat) returns (written: seq<Byte>, field: seq<Byte>)
    requires t.Schema? && 0 < n <= |t.fields| && EncodeFields(t, n, structure, room).Success?
    requires p + |EncodeFields(t, n, structure, room).value| <= |s|
    requires s[p..p + |EncodeFields(t, n, structure, room).value|] == EncodeFields(t, n, structure, room).value
    ensures EncodeFields(t, n - 1, structure, room) == Success(written)
    ensures p + |EncodeFields(t, n - 1, structure, room).value| <= |s|
    ensures s[p..p + |EncodeFields(t, n - 1, structure, room).value|] == EncodeFields(t, n - 1, structure, room).value
    ensures EncodeField(t.fields[n - 1], structure, room - |written|) == Success(field)
    ensures |EncodeFields(t, n, structure, room).value| == |written| + |field|
    ensures s[p..p + |written|] == written
    ensures s[p + |written|..p + |written| + |field|] == field
  {
    written := EncodeFields(t, n - 1, structure, room).value;
    field := EncodeField(t.fields[n - 1], structure, room - |written|).value;
    SliceSplit(s, p, written, field);
  }

  /** Once the first n - 1 fields read back up to `q`, the last one written at `q` reads back too. */
  lemma ReadAfterWriteLastField(t: Type, n: nat, structure: map<string, Value>, room: int, s: seq<Byte>, p: nat, q: nat, field: seq<Byte>)
    requires t.Schema? && 0 < n <= |t.fields| && p <= q && q + |field| <= |s|
    requires EncodeField(t.fields[n - 1], structure, room) == Success(field)
    requires s[q..q + |field|] == field
    requires DecodeFields(t, n - 1, s, p) == Success((NormFields(t, n - 1, structure), q))
    ensures DecodeFields(t, n, s, p) == Success((NormFields(t, n, structure), q + |field|))
    decreases t, 0, 0
  {
    ReadAfterWriteField(t.fields[n - 1], structure, room, s, q);
  }

  /** Field::readFrom after Field::writeTo gives back the field's value as its type reads it. */
  lemma ReadAfterWriteField(f: Field, structure: map<string, Value>, room: int, s: seq<Byte>, p: nat)
    requires EncodeField(f, structure, room).Success?
    requires p + |EncodeField(f, structure, room).value| <= |s|
    requires s[p..p + |EncodeField(f, structure, room).value|] == EncodeField(f, structure, room).value
    ensures DecodeField(f, s, p) == Success((NormField(f, structure), p + |EncodeField(f, structure, room).value|))
    decreases f.typ, 3
  {
    ReadAfterWrite(f.typ, Lookup(structure, f.name), room, s, p);
  }

  // ------------------------------------------------------------ validated values write

  /**
   * A value that passes validation (and whose buffers and arrays fit their
   * 32-bit length prefixes) has a size, and writes without error into any
   * message with at least that much room.
   */
  lemma {:induction false} ValidValuesWrite(t: Type, v: Value, room: int)
    requires Validate(t, v).Pass? && Bounded(t, v)
    ensures SizeOf(t, v).Success?
    ensures room >= SizeOf(t, v).value ==> Encode(t, v, room).Success?
    decreases t, 2, 0
  {
    match t
    case ArrayOf(_, _) =>
      if v.VList? {
        ValidItemsWrite(t, v.items, room - 4);
      }
    case Schema(_) =>
      ValidFieldsWrite(t, |t.fields|, Entries(v), room);
    case _ =>
      ValidPrimitivesWrite(t, v, room);
  }

  lemma ValidPrimitivesWrite(t: Type, v: Value, room: int)
    requires !t.ArrayOf? && !t.Schema? && Validate(t, v).Pass? && Bounded(t, v)
    ensures SizeOf(t, v).Success?
    ensures room >= SizeOf(t, v).value ==> Encode(t, v, room).Success?
  {
  }

  lemma {:induction false} ValidItemsWrite(t: Type, items: seq<Value>, room: int)
    requires t.ArrayOf? && ValidateItems(t, items).Pass? && BoundedItems(t, items)
    ensures SizeItems(t, items).Success?
    ensures room >= SizeItems(t, items).value ==> EncodeItems(t, items, room).Success?
    decreases t, 1, |items|
  {
    if items != [] {
      var init := items[..|items| - 1];
      var last := items[|items| - 1];
      ValidItemsWrite(t, init, room);
      ValidItemWrite(t, last, 0);
      if room >= SizeItems(t, items).value {
        var written := EncodeItems(t, init, room).value;
        SizeOfMatchesWriteItems(t, init, room);
        ValidItemWrite(t, last, room - |written|);
      }
    }
  }

  lemma ValidItemWrite(t: Type, v: Value, room: int)
    requires t.ArrayOf? && Validate(t.item, v).Pass? && Bounded(t.item, v)
    ensures SizeItem(t, v).Success?
    ensures room >= SizeItem(t, v).value ==> EncodeItem(t, v, room).Success?
    decreases t.item, 3
  {
    ValidValuesWrite(t.item, v, room);
  }

  lemma {:induction false} ValidFieldsWrite(t: Type, n: nat, structure: map<string, Value>, room: int)
    requires t.Schema? && n <= |t.fields|
    requires ValidateFields(t, n, structure).Pass? && BoundedFields(t, n, structure)
    ensures SizeFields(t, n, structure).Success?
    ensures room >= SizeFields(t, n, structure).value ==> EncodeFields(t, n, structure, room).Success?
    decreases t, 1, n
  {
    if n > 0 {
      ValidFieldsWrite(t, n - 1, structure, room);
      ValidFieldWrite(t.fields[n - 1], structure, 0);
      if room >= SizeFields(t, n, structure).value {
        var written := EncodeFields(t, n - 1, structure, room).value;
        SizeOfMatchesWriteFields(t, n - 1, structure, room);
        ValidFieldWrite(t.fields[n - 1], structure, room - |written|);
      }
    }
  }

  lemma ValidFieldWrite(f: Field, structure: map<string, Value>, room: int)
    requires ValidateField(f, structure).Pass? && Bounded(f.typ, Lookup(structure, f.name))
    ensures FieldSize(f, structure).Success?
    ensures room >= FieldSize(f, structure).value ==> EncodeField(f, structure, room).Success?
    decreases f.typ, 3
  {
    ValidValuesWrite(f.typ, Lookup(structure, f.name), room);
  }

  /** For types without buffers or schemas, a valid value reads back exactly as it was. */
  lemma {:induction false} ValidValuesReadBackVerbatim(t: Type, v: Value)
    requires ReadsBackVerbatim(t) && Validate(t, v).Pass?
    ensures Norm(t, v) == v
    decreases t, 2, 0
  {
    match t
    case ArrayOf(_, _) =>
      if v.VList? {
        ValidItemsReadBackVerbatim(t, v.items);
      }
    case _ =>
  }

  lemma {:induction false} ValidItemsReadBackVerbatim(t: Type, items: seq<Value>)
    requires t.ArrayOf? && ReadsBackVerbatim(t.item) && ValidateItems(t, items).Pass?
    ensures NormItems(t, items) == items
    decreases t, 1, |items|
  {
    if items != [] {
      ValidItemsReadBackVerbatim(t, items[..|items| - 1]);
      ValidValuesReadBackVerbatim(t.item, items[|items| - 1]);
    }
  }

  // ------------------------------------------------------------ reads ignore what follows

  lemma TakeIgnoresTrailing(s: seq<Byte>, extra: seq<Byte>, p: nat, k: nat)
    requires p <= |s| && Take(s, p, k).Success?
    ensures Take(s + extra, p, k) == Take(s, p, k)
  {
    assert (s + extra)[p..p + k] == s[p..p + k];
  }

  lemma TakeNumberIgnoresTrailing(f: NumberFormat, s: seq<Byte>, extra: seq<Byte>, p: nat)
    requires p <= |s| && TakeNumber(f, s, p).Success?
    ensures TakeNumber(f, s + extra, p) == TakeNumber(f, s, p)
  {
    TakeIgnoresTrailing(s, extra, p, f.Width());
  }

  /** A read depends only on the bytes it consumes: appending more leaves its result unchanged. */
  lemma {:induction false} ReadIgnoresTrailing(t: Type, s: seq<Byte>, extra: seq<Byte>, p: nat)
    requires p <= |s| && Decode(t, s, p).Success?
    ensures Decode(t, s + extra, p) == Decode(t, s, p)
    decreases t, 2, 0
  {
    match t
    case Int8 => TakeNumberIgnoresTrailing(SignedByte, s, extra, p);
    case Int16 => TakeNumberIgnoresTrailing(SignedShort, s, extra, p);
    case Int32 => TakeNumberIgnoresTrailing(SignedInt, s, extra, p);
    case Int64 => TakeNumberIgnoresTrailing(SignedLong, s, extra, p);
    case UnsignedInt32 => TakeNumberIgnoresTrailing(UnsignedInt, s, extra, p);
    case Boolean => TakeNumberIgnoresTrailing(SignedByte, s, extra, p);
    case NonNullableString | NullableString =>
      TakeNumberIgnoresTrailing(SignedShort, s, extra, p);
      var n := TakeNumber(SignedShort, s, p).value;
      if n.0 >= 0 {
        TakeIgnoresTrailing(s, extra, n.1, n.0);
      }
    case NonNullableBytes | NullableBytes =>
      TakeNumberIgnoresTrailing(SignedInt, s, extra, p);
      var n := TakeNumber(SignedInt, s, p).value;
      if n.0 >= 0 {
        TakeIgnoresTrailing(s, extra, n.1, n.0);
      }
    case ArrayOf(_, _) =>
      TakeNumberIgnoresTrailing(SignedInt, s, extra, p);
      var n := TakeNumber(SignedInt, s, p).value;
      if n.0 >= 0 {
        ItemsIgnoreTrailing(t, n.0, s, extra, n.1);
      }
    case Schema(_) =>
      FieldsIgnoreTrailing(t, |t.fields|, s, extra, p);
  }

  lemma {:induction false} ItemsIgnoreTrailing(t: Type, n: nat, s: seq<Byte>, extra: seq<Byte>, p: nat)
    requires t.ArrayOf? && p <= |s| && DecodeItems(t, n, s, p).Success?
    ensures DecodeItems(t, n, s + extra, p) == DecodeItems(t, n, s, p)
    decreases t, 1, n
  {
    if n > 0 {
      ItemsIgnoreTrailing(t, n - 1, s, extra, p);
      ReadIgnoresTrailing(t.item, s, extra, DecodeItems(t, n - 1, s, p).value.1);
    }
  }

  lemma {:induction false} FieldsIgnoreTrailing(t: Type, n: nat, s: seq<Byte>, extra: seq<Byte>, p: nat)
    requires t.Schema? && n <= |t.fields| && p <= |s| && DecodeFields(t, n, s, p).Success?
    ensures DecodeFields(t, n, s + extra, p) == DecodeFields(t, n, s, p)
    decreases t, 1, n
  {
    if n > 0 {
      FieldsIgnoreTrailing(t, n - 1, s, extra, p);
      ReadIgnoresTrailing(t.fields[n - 1].typ, s, extra, DecodeFields(t, n - 1, s, p).value.1);
    }
  }
}
