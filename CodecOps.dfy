/**
 * The types' write, read and sizeOf as the PHP runs them: methods that
 * advance a message's cursor (or accumulate a size) step by step, each
 * proved to do exactly what the corresponding function of Codec describes.
 * After a failed write the message's bytes and cursor are left unspecified,
 * as the PHP leaves a partial write (a length prefix without its body, say)
 * behind the exception; no caller uses a message after a failure.
 */
module CodecOps {
  import opened Wire
  import opened Errors
  import opened Binary
  import opened Types
  import opened Codec

  // ------------------------------------------------------------ failures persist along a fold

  lemma {:induction false} ItemsWriteFailurePersists(t: Type, items: seq<Value>, k: nat, room: int)
    requires t.ArrayOf? && k <= |items| && EncodeItems(t, items[..k], room).Failure?
    ensures EncodeItems(t, items, room) == EncodeItems(t, items[..k], room)
    decreases |items| - k
  {
    if k < |items| {
      assert items[..k + 1][..k] == items[..k];
      ItemsWriteFailurePersists(t, items, k + 1, room);
    } else {
      assert items[..k] == items;
    }
  }

  lemma {:induction false} FieldsWriteFailurePersists(t: Type, k: nat, n: nat, structure: map<string, Value>, room: int)
    requires t.Schema? && k <= n <= |t.fields| && EncodeFields(t, k, structure, room).Failure?
    ensures EncodeFields(t, n, structure, room) == EncodeFields(t, k, structure, room)
    decreases n - k
  {
    if k < n {
      FieldsWriteFailurePersists(t, k, n - 1, structure, room);
    }
  }

  /** One more field of the fold: its failure, or the bytes so far followed by its bytes. */
  lemma FieldsWriteStep(t: Type, i: nat, structure: map<string, Value>, room: int, written: seq<Byte>)
    requires t.Schema? && i < |t.fields| && EncodeFields(t, i, structure, room) == Success(written)
    ensures var f := EncodeField(t.fields[i], structure, room - |written|);
      EncodeFields(t, i + 1, structure, room) == if f.Failure? then Failure(f.error) else Success(written + f.value)
  {
  }

  /** The fold's next step, for a field outcome computed beforehand. */
  lemma FieldsWriteNext(t: Type, i: nat, structure: map<string, Value>, room: int, written: seq<Byte>, rest: int, field: Result<seq<Byte>>)
    requires t.Schema? && i < |t.fields| && EncodeFields(t, i, structure, room) == Success(written)
    requires rest == room - |written| && field == EncodeField(t.fields[i], structure, rest)
    ensures field.Failure? ==> EncodeFields(t, i + 1, structure, room).Failure?
    ensures field.Success? ==> EncodeFields(t, i + 1, structure, room) == Success(written + field.value)
  {
  }

  lemma {:induction false} ItemsReadFailurePersists(t: Type, k: nat, n: nat, s: seq<Byte>, p: nat)
    requires t.ArrayOf? && p <= |s| && k <= n && DecodeItems(t, k, s, p).Failure?
    ensures DecodeItems(t, n, s, p) == DecodeItems(t, k, s, p)
    decreases n - k
  {
    if k < n {
      ItemsReadFailurePersists(t, k, n - 1, s, p);
    }
  }

  lemma {:induction false} FieldsReadFailurePersists(t: Type, k: nat, n: nat, s: seq<Byte>, p: nat)
    requires t.Schema? && p <= |s| && k <= n <= |t.fields| && DecodeFields(t, k, s, p).Failure?
    ensures DecodeFields(t, n, s, p) == DecodeFields(t, k, s, p)
    decreases n - k
  {
    if k < n {
      FieldsReadFailurePersists(t, k, n - 1, s, p);
    }
  }

  lemma {:induction false} ItemsSizeFailurePersists(t: Type, items: seq<Value>, k: nat)
    requires t.ArrayOf? && k <= |items| && SizeItems(t, items[..k]).Failure?
    ensures SizeItems(t, items) == SizeItems(t, items[..k])
    decreases |items| - k
  {
    if k < |items| {
      assert items[..k + 1][..k] == items[..k];
      ItemsSizeFailurePersists(t, items, k + 1);
    } else {
      assert items[..k] == items;
    }
  }

  lemma {:induction false} FieldsSizeFailurePersists(t: Type, k: nat, n: nat, structure: map<string, Value>)
    requires t.Schema? && k <= n <= |t.fields| && SizeFields(t, k, structure).Failure?
    ensures SizeFields(t, n, structure) == SizeFields(t, k, structure)
    decreases n - k
  {
    if k < n {
      FieldsSizeFailurePersists(t, k, n - 1, structure);
    }
  }

  // ------------------------------------------------------------ write

  /** A length prefix and then the bytes (the string and byte-sequence writers). */
  method WriteBlob(f: NumberFormat, data: seq<Byte>, m: Message) returns (r: Outcome)
    requires f == SignedShort || f == SignedInt
    requires m.Valid()
    modifies m
    ensures m.Valid()
    ensures r == EncodeBlob(f, data, old(m.Remaining())).ToOutcome()
    ensures r.Pass? ==> |EncodeBlob(f, data, old(m.Remaining())).value| <= old(m.Remaining())
    ensures r.Pass? ==> m.bytes == Splice(old(m.bytes), old(m.position), EncodeBlob(f, data, old(m.Remaining())).value)
    ensures r.Pass? ==> m.position == old(m.position) + f.Width() + |data|
  {
    r := m.WriteNumber(f, |data|);
    if r.Fail? {
      return;
    }
    ghost var afterHeader := m.bytes;
    r := m.Write(data);
    if r.Pass? {
      SpliceTwice(old(m.bytes), old(m.position), Pack(|data|, f.Width()), data);
    }
  }

  /** Type::write: what it leaves in the message is what Encode describes. */
  method Write(t: Type, v: Value, m: Message) returns (r: Outcome)
    requires m.Valid()
    modifies m
    ensures m.Valid()
    ensures r == Encode(t, v, old(m.Remaining())).ToOutcome()
    ensures r.Pass? ==> |Encode(t, v, old(m.Remaining())).value| <= old(m.Remaining())
    ensures r.Pass? ==> m.bytes == Splice(old(m.bytes), old(m.position), Encode(t, v, old(m.Remaining())).value)
    ensures r.Pass? ==> m.position == old(m.position) + |Encode(t, v, old(m.Remaining())).value|
    decreases t, 2
  {
    match t
    case ArrayOf(_, _) => r := WriteArray(t, v, m);
    case Schema(_) => r := WriteSchema(t, v, m);
    case NonNullableString => r := WriteBlobType(t, v, m);
    case NullableString => r := WriteBlobType(t, v, m);
    case NonNullableBytes => r := WriteBlobType(t, v, m);
    case NullableBytes => r := WriteBlobType(t, v, m);
    case _ => r := WriteNumberType(t, v, m);
  }

  /** The integer types and Boolean: one typed write on the message. */
  method WriteNumberType(t: Type, v: Value, m: Message) returns (r: Outcome)
    requires t.Int8? || t.Int16? || t.Int32? || t.Int64? || t.UnsignedInt32? || t.Boolean?
    requires m.Valid()
    modifies m
    ensures m.Valid()
    ensures r == Encode(t, v, old(m.Remaining())).ToOutcome()
    ensures r.Pass? ==> |Encode(t, v, old(m.Remaining())).value| <= old(m.Remaining())
    ensures r.Pass? ==> m.bytes == Splice(old(m.bytes), old(m.position), Encode(t, v, old(m.Remaining())).value)
    ensures r.Pass? ==> m.position == old(m.position) + |Encode(t, v, old(m.Remaining())).value|
  {
    if t.Boolean? {
      r := m.WriteByte(if v == VBool(true) then 1 else 0);
      return;
    }
    if !v.VInt? {
      return Fail(TypeMismatch);
    }
    match t
    case Int8 => r := m.WriteByte(v.i);
    case Int16 => r := m.WriteShort(v.i);
    case Int32 => r := m.WriteInt(v.i);
    case Int64 => r := m.WriteLong(v.i);
    case UnsignedInt32 => r := m.WriteUnsignedInt(v.i);
  }

  /** The string and byte-sequence types, with the -1 length for null in the nullable ones. */
  method WriteBlobType(t: Type, v: Value, m: Message) returns (r: Outcome)
    requires t.NonNullableString? || t.NullableString? || t.NonNullableBytes? || t.NullableBytes?
    requires m.Valid()
    modifies m
    ensures m.Valid()
    ensures r == Encode(t, v, old(m.Remaining())).ToOutcome()
    ensures r.Pass? ==> |Encode(t, v, old(m.Remaining())).value| <= old(m.Remaining())
    ensures r.Pass? ==> m.bytes == Splice(old(m.bytes), old(m.position), Encode(t, v, old(m.Remaining())).value)
    ensures r.Pass? ==> m.position == old(m.position) + |Encode(t, v, old(m.Remaining())).value|
  {
    match t
    case NonNullableString =>
      if !v.VString? { return Fail(TypeMismatch); }
      r := WriteBlob(SignedShort, v.s, m);
    case NullableString =>
      if v == VNull {
        r := m.WriteShort(-1);
      } else if v.VString? {
        r := WriteBlob(SignedShort, v.s, m);
      } else {
        r := Fail(TypeMismatch);
      }
    case NonNullableBytes =>
      if !v.VBuffer? { return Fail(TypeMismatch); }
      r := WriteBlob(SignedInt, v.rest, m);
    case NullableBytes =>
      if v.VBuffer? {
        r := WriteBlob(SignedInt, v.rest, m);
      } else {
        r := m.WriteInt(-1);
      }
  }

  /** ArrayOf::write: -1 for null, otherwise the count and then every item in order. */
  method WriteArray(t: Type, v: Value, m: Message) returns (r: Outcome)
    requires t.ArrayOf? && m.Valid()
    modifies m
    ensures m.Valid()
    ensures r == Encode(t, v, old(m.Remaining())).ToOutcome()
    ensures r.Pass? ==> |Encode(t, v, old(m.Remaining())).value| <= old(m.Remaining())
    ensures r.Pass? ==> m.bytes == Splice(old(m.bytes), old(m.position), Encode(t, v, old(m.Remaining())).value)
    ensures r.Pass? ==> m.position == old(m.position) + |Encode(t, v, old(m.Remaining())).value|
    decreases t, 1
  {
    if v == VNull {
      r := m.WriteInt(-1);
      return;
    }
    if !v.VList? {
      return Fail(TypeMismatch);
    }
    r := m.WriteInt(|v.items|);
    if r.Fail? {
      return;
    }
    ghost var header := Pack(|v.items|, 4);
    r := WriteItems(t, v.items, m);
    if r.Pass? {
      SpliceTwice(old(m.bytes), old(m.position), header, EncodeItems(t, v.items, old(m.Remaining()) - 4).value);
    }
  }

  /** The message holds `written` at `p0` over the bytes `b0` it started from, with the cursor just after it. */
  ghost predicate Wrote(m: Message, b0: seq<Byte>, p0: nat, written: seq<Byte>)
    reads m
  {
    && m.Valid() && p0 + |written| <= |b0|
    && m.bytes == Splice(b0, p0, written) && m.position == p0 + |written|
  }

  /** A write of `piece` at the cursor extends what the message holds by that piece. */
  lemma WroteMore(m: Message, b0: seq<Byte>, p0: nat, written: seq<Byte>, before: seq<Byte>, at: nat, piece: seq<Byte>)
    requires p0 + |written| <= |b0| && before == Splice(b0, p0, written) && at == p0 + |written|
    requires m.Valid() && at + |piece| <= |before|
    requires m.bytes == Splice(before, at, piece) && m.position == at + |piece|
    ensures Wrote(m, b0, p0, written + piece)
  {
    SpliceTwice(b0, p0, written, piece);
  }

  /** ArrayOf::write's loop: every item in order through the item type. */
  method WriteItems(t: Type, items: seq<Value>, m: Message) returns (r: Outcome)
    requires t.ArrayOf? && m.Valid()
    modifies m
    ensures m.Valid()
    ensures r == EncodeItems(t, items, old(m.Remaining())).ToOutcome()
    ensures r.Pass? ==> |EncodeItems(t, items, old(m.Remaining())).value| <= old(m.Remaining())
    ensures r.Pass? ==> m.bytes == Splice(old(m.bytes), old(m.position), EncodeItems(t, items, old(m.Remaining())).value)
    ensures r.Pass? ==> m.position == old(m.position) + |EncodeItems(t, items, old(m.Remaining())).value|
    decreases t, 0
  {
    ghost var room := old(m.Remaining());
    ghost var written: seq<Byte> := [];
    SpliceEmpty(m.bytes, m.position);
    var i := 0;
    while i < |items|
      invariant 0 <= i <= |items|
      invariant EncodeItems(t, items[..i], room) == Success(written)
      invariant Wrote(m, old(m.bytes), old(m.position), written)
    {
      ghost var before, at := m.bytes, m.position;
      ghost var item := Encode(t.item, items[i], room - |written|);
      assert m.Remaining() == room - |written|;
      r := Write(t.item, items[i], m);
      assert items[..i + 1][..i] == items[..i];
      if r.Fail? {
        ItemsWriteFailurePersists(t, items, i + 1, room);
        return;
      }
      WroteMore(m, old(m.bytes), old(m.position), written, before, at, item.value);
      written := written + item.value;
      i := i + 1;
    }
    assert items[..i] == items;
    r := Pass;
  }

  /** Schema::write: every field in schema order, each through Field::writeTo. */
  method WriteSchema(t: Type, v: Value, m: Message) returns (r: Outcome)
    requires t.Schema? && m.Valid()
    modifies m
    ensures m.Valid()
    ensures r == Encode(t, v, old(m.Remaining())).ToOutcome()
    ensures r.Pass? ==> |Encode(t, v, old(m.Remaining())).value| <= old(m.Remaining())
    ensures r.Pass? ==> m.bytes == Splice(old(m.bytes), old(m.position), Encode(t, v, old(m.Remaining())).value)
    ensures r.Pass? ==> m.position == old(m.position) + |Encode(t, v, old(m.Remaining())).value|
    decreases t, 1
  {
    if !HasKind(v, IsArray) {
      return Fail(TypeMismatch);
    }
    r := WriteFields(t, Entries(v), m);
  }

  /** Schema::write's loop over the fields. */
  method WriteFields(t: Type, structure: map<string, Value>, m: Message) returns (r: Outcome)
    requires t.Schema? && m.Valid()
    modifies m
    ensures m.Valid()
    ensures r == EncodeFields(t, |t.fields|, structure, old(m.Remaining())).ToOutcome()
    ensures r.Pass? ==> |EncodeFields(t, |t.fields|, structure, old(m.Remaining())).value| <= old(m.Remaining())
    ensures r.Pass? ==>
      m.bytes == Splice(old(m.bytes), old(m.position), EncodeFields(t, |t.fields|, structure, old(m.Remaining())).value)
    ensures r.Pass? ==> m.position == old(m.position) + |EncodeFields(t, |t.fields|, structure, old(m.Remaining())).value|
    decreases t, 0
  {
    ghost var room := old(m.Remaining());
    ghost var written: seq<Byte> := [];
    SpliceEmpty(m.bytes, m.position);
    var i := 0;
    while i < |t.fields|
      invariant 0 <= i <= |t.fields|
      invariant EncodeFields(t, i, structure, room) == Success(written)
      invariant Wrote(m, old(m.bytes), old(m.position), written)
    {
      ghost var before, at := m.bytes, m.position;
      ghost var rest := m.Remaining();
      ghost var field := EncodeField(t.fields[i], structure, rest);
      FieldsWriteNext(t, i, structure, room, written, rest, field);
      r := WriteTo(t.fields[i], structure, m);
      if r.Fail? {
        FieldsWriteFailurePersists(t, i + 1, |t.fields|, structure, room);
        return;
      }
      WroteMore(m, old(m.bytes), old(m.position), written, before, at, field.value);
      written := written + field.value;
      i := i + 1;
    }
    r := Pass;
  }

  /** Field::writeTo: the extracted value through the field's type. */
  method WriteTo(f: Field, structure: map<string, Value>, m: Message) returns (r: Outcome)
    requires m.Valid()
    modifies m
    ensures m.Valid()
    ensures r == EncodeField(f, structure, old(m.Remaining())).ToOutcome()
    ensures r.Pass? ==> |EncodeField(f, structure, old(m.Remaining())).value| <= old(m.Remaining())
    ensures r.Pass? ==> m.bytes == Splice(old(m.bytes), old(m.position), EncodeField(f, structure, old(m.Remaining())).value)
    ensures r.Pass? ==> m.position == old(m.position) + |EncodeField(f, structure, old(m.Remaining())).value|
    decreases f.typ, 3
  {
    var value := ExtractValue(f, structure);
    if value.Failure? {
      return Fail(value.error);
    }
    r := Write(f.typ, value.value, m);
  }

  // ------------------------------------------------------------ read

  /** A length prefix, then that many bytes; a negative length is null or an error. */
  method ReadBlob(f: NumberFormat, nullable: bool, m: Message) returns (r: Result<Option<seq<Byte>>>)
    requires f == SignedShort || f == SignedInt
    requires m.Valid()
    modifies m`position
    ensures m.Valid()
    ensures var n := TakeNumber(f, m.bytes, old(m.position));
      if n.Failure? then r == Failure(n.error)
      else if n.value.0 < 0 then
        (if nullable then r == Success(None) && m.position == n.value.1 else r == Failure(NegativeLength(n.value.0)))
      else
        var body := Take(m.bytes, n.value.1, n.value.0);
        if body.Failure? then r == Failure(body.error)
        else r == Success(Some(body.value)) && m.position == n.value.1 + n.value.0
  {
    var length := m.ReadNumber(f);
    if length.Failure? {
      return Failure(length.error);
    }
    if length.value < 0 {
      if nullable {
        return Success(None);
      }
      return Failure(NegativeLength(length.value));
    }
    var body := m.Read(length.value);
    if body.Failure? {
      return Failure(body.error);
    }
    r := Success(Some(body.value));
  }

  /** Type::read: the value and new cursor Decode describes. */
  method Read(t: Type, m: Message) returns (r: Result<Value>)
    requires m.Valid()
    modifies m`position
    ensures m.Valid()
    ensures var d := Decode(t, m.bytes, old(m.position));
      (d.Success? ==> r == Success(d.value.0) && m.position == d.value.1) && (d.Failure? ==> r == Failure(d.error))
    decreases t, 2
  {
    match t
    case ArrayOf(_, _) => r := ReadArray(t, m);
    case Schema(_) => r := ReadSchema(t, m);
    case NonNullableString => r := ReadBlobType(t, m);
    case NullableString => r := ReadBlobType(t, m);
    case NonNullableBytes => r := ReadBlobType(t, m);
    case NullableBytes => r := ReadBlobType(t, m);
    case _ => r := ReadNumberType(t, m);
  }

  /** The integer types and Boolean: one typed read on the message. */
  method ReadNumberType(t: Type, m: Message) returns (r: Result<Value>)
    requires t.Int8? || t.Int16? || t.Int32? || t.Int64? || t.UnsignedInt32? || t.Boolean?
    requires m.Valid()
    modifies m`position
    ensures m.Valid()
    ensures var d := Decode(t, m.bytes, old(m.position));
      (d.Success? ==> r == Success(d.value.0) && m.position == d.value.1) && (d.Failure? ==> r == Failure(d.error))
  {
    if t.Boolean? {
      var x := m.ReadByte();
      return if x.Success? then Success(VBool(x.value != 0)) else Failure(x.error);
    }
    var x;
    match t {
      case Int8 => x := m.ReadByte();
      case Int16 => x := m.ReadShort();
      case Int32 => x := m.ReadInt();
      case Int64 => x := m.ReadLong();
      case UnsignedInt32 => x := m.ReadUnsignedInt();
    }
    r := if x.Success? then Success(VInt(x.value)) else Failure(x.error);
  }

  /** The string and byte-sequence types: a null for a negative length where the type allows it. */
  method ReadBlobType(t: Type, m: Message) returns (r: Result<Value>)
    requires t.NonNullableString? || t.NullableString? || t.NonNullableBytes? || t.NullableBytes?
    requires m.Valid()
    modifies m`position
    ensures m.Valid()
    ensures var d := Decode(t, m.bytes, old(m.position));
      (d.Success? ==> r == Success(d.value.0) && m.position == d.value.1) && (d.Failure? ==> r == Failure(d.error))
  {
    var x := ReadBlob(if t.NonNullableString? || t.NullableString? then SignedShort else SignedInt,
                      t.NullableString? || t.NullableBytes?, m);
    if x.Failure? {
      return Failure(x.error);
    }
    match x.value
    case None => r := Success(VNull);
    case Some(body) =>
      r := Success(if t.NonNullableString? || t.NullableString? then VString(body) else VBuffer([], body));
  }

  /** ArrayOf::read: null for a negative count, otherwise exactly count items in order. */
  method ReadArray(t: Type, m: Message) returns (r: Result<Value>)
    requires t.ArrayOf? && m.Valid()
    modifies m`position
    ensures m.Valid()
    ensures var d := Decode(t, m.bytes, old(m.position));
      (d.Success? ==> r == Success(d.value.0) && m.position == d.value.1) && (d.Failure? ==> r == Failure(d.error))
    decreases t, 1
  {
    var count := m.ReadInt();
    if count.Failure? {
      return Failure(count.error);
    }
    if count.value < 0 {
      return Success(VNull);
    }
    var items := ReadItems(t, count.value, m);
    r := if items.Success? then Success(VList(items.value)) else Failure(items.error);
  }

  /** ArrayOf::read's loop: `count` items in order through the item type. */
  method ReadItems(t: Type, count: nat, m: Message) returns (r: Result<seq<Value>>)
    requires t.ArrayOf? && m.Valid()
    modifies m`position
    ensures m.Valid()
    ensures var d := DecodeItems(t, count, m.bytes, old(m.position));
      (d.Success? ==> r == Success(d.value.0) && m.position == d.value.1) && (d.Failure? ==> r == Failure(d.error))
    decreases t, 0
  {
    var items: seq<Value> := [];
    var i := 0;
    while i < count
      invariant 0 <= i <= count
      invariant m.Valid() && old(m.position) <= m.position
      invariant DecodeItems(t, i, m.bytes, old(m.position)) == Success((items, m.position))
    {
      var item := Read(t.item, m);
      if item.Failure? {
        ItemsReadFailurePersists(t, i + 1, count, m.bytes, old(m.position));
        return Failure(item.error);
      }
      items := items + [item.value];
      i := i + 1;
    }
    r := Success(items);
  }

  /** Schema::read: every field in schema order, stored under its name. */
  method ReadSchema(t: Type, m: Message) returns (r: Result<Value>)
    requires t.Schema? && m.Valid()
    modifies m`position
    ensures m.Valid()
    ensures var d := Decode(t, m.bytes, old(m.position));
      (d.Success? ==> r == Success(d.value.0) && m.position == d.value.1) && (d.Failure? ==> r == Failure(d.error))
    decreases t, 0
  {
    var structure: map<string, Value> := map[];
    var i := 0;
    while i < |t.fields|
      invariant 0 <= i <= |t.fields|
      invariant m.Valid() && old(m.position) <= m.position
      invariant DecodeFields(t, i, m.bytes, old(m.position)) == Success((structure, m.position))
    {
      var value := ReadFrom(t.fields[i], m);
      if value.Failure? {
        FieldsReadFailurePersists(t, i + 1, |t.fields|, m.bytes, old(m.position));
        return Failure(value.error);
      }
      structure := structure[t.fields[i].name := value.value];
      i := i + 1;
    }
    r := Success(VMap(structure));
  }

  /** Field::readFrom: straight through the field's type. */
  method ReadFrom(f: Field, m: Message) returns (r: Result<Value>)
    requires m.Valid()
    modifies m`position
    ensures m.Valid()
    ensures var d := DecodeField(f, m.bytes, old(m.position));
      (d.Success? ==> r == Success(d.value.0) && m.position == d.value.1) && (d.Failure? ==> r == Failure(d.error))
    decreases f.typ, 3
  {
    r := Read(f.typ, m);
  }

  // ------------------------------------------------------------ sizeOf

  /** Type::sizeOf: what each type's sizeOf returns, or the error it raises. */
  method ComputeSize(t: Type, v: Value) returns (r: Result<int>)
    ensures r == SizeOf(t, v)
    decreases t, 2
  {
    match t
    case Int8 => r := Success(1);
    case Boolean => r := Success(1);
    case Int16 => r := Success(2);
    case Int32 => r := Success(4);
    case UnsignedInt32 => r := Success(4);
    case Int64 => r := Success(8);
    case NonNullableString =>
      r := if v.VString? then Success(2 + |v.s|) else Failure(TypeMismatch);
    case NullableString =>
      r := if v == VNull then Success(2) else if v.VString? then Success(2 + |v.s|) else Failure(TypeMismatch);
    case NonNullableBytes =>
      r := if v.VBuffer? then Success(4 + |v.rest|) else Failure(TypeMismatch);
    case NullableBytes =>
      r := if v.VBuffer? then Success(4 + |v.rest|) else Success(4);
    case ArrayOf(_, _) => r := ArraySize(t, v);
    case Schema(_) => r := SchemaSize(t, v);
  }

  /** ArrayOf::sizeOf: 4 for the count plus every item's size, accumulated in order. */
  method ArraySize(t: Type, v: Value) returns (r: Result<int>)
    requires t.ArrayOf?
    ensures r == SizeOf(t, v)
    decreases t, 1
  {
    if !v.VList? {
      return if v.VMap? then Failure(TypeMismatch) else Success(4);
    }
    var size := 4;
    var i := 0;
    while i < |v.items|
      invariant 0 <= i <= |v.items|
      invariant SizeItems(t, v.items[..i]) == Success(size - 4)
    {
      var item := ComputeSize(t.item, v.items[i]);
      assert v.items[..i + 1][..i] == v.items[..i];
      if item.Failure? {
        ItemsSizeFailurePersists(t, v.items, i + 1);
        return Failure(item.error);
      }
      size := size + item.value;
      i := i + 1;
    }
    assert v.items[..i] == v.items;
    r := Success(size);
  }

  /** Schema::sizeOf: the sum of the fields' sizes, accumulated in schema order. */
  method SchemaSize(t: Type, v: Value) returns (r: Result<int>)
    requires t.Schema?
    ensures r == SizeOf(t, v)
    decreases t, 1
  {
    if !HasKind(v, IsArray) {
      return Failure(TypeMismatch);
    }
    var structure := Entries(v);
    var size := 0;
    var i := 0;
    while i < |t.fields|
      invariant 0 <= i <= |t.fields|
      invariant SizeFields(t, i, structure) == Success(size)
    {
      var field := FieldSizeOf(t.fields[i], structure);
      if field.Failure? {
        FieldsSizeFailurePersists(t, i + 1, |t.fields|, structure);
        return Failure(field.error);
      }
      size := size + field.value;
      i := i + 1;
    }
    r := Success(size);
  }

  method FieldSizeOf(f: Field, structure: map<string, Value>) returns (r: Result<int>)
    ensures r == FieldSize(f, structure)
    decreases f.typ, 3
  {
    var value := ExtractValue(f, structure);
    if value.Failure? {
      return Failure(value.error);
    }
    r := ComputeSize(f.typ, value.value);
  }
}
