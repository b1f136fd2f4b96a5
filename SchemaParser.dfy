/**
 * Schema definitions and their compilation into schema types. A definition
 * maps field names, in order, to one of three shapes: the class name of a
 * primitive type, a map holding `_items` (and optionally `_nullable`) that
 * stands for an array, or any other map, which is a nested record.
 */
module SchemaParser {
  import opened Errors
  import opened Types
  import opened Codec

  /** The primitive type classes a definition can name. */
  datatype Primitive =
    | PInt8
    | PInt16
    | PInt32
    | PInt64
    | PUnsignedInt32
    | PBoolean
    | PNonNullableString
    | PNullableString
    | PNonNullableBytes
    | PNullableBytes

  /**
   * One field definition: a class name, an `_items` map with its optional
   * `_nullable` flag, or a nested record definition.
   */
  datatype Definition =
    | TypeRef(primitive: Primitive)
    | ItemsDef(items: Definition, nullable: Option<bool>)
    | Nested(entries: seq<Entry>)

  /** A `name => definition` pair of a definition map, in the map's order. */
  datatype Entry = Entry(name: string, def: Definition)

  /** `new $fieldDefinition()` for a primitive class name. */
  function PrimitiveType(p: Primitive): Type {
    match p
    case PInt8 => Int8
    case PInt16 => Int16
    case PInt32 => Int32
    case PInt64 => Int64
    case PUnsignedInt32 => UnsignedInt32
    case PBoolean => Boolean
    case PNonNullableString => NonNullableString
    case PNullableString => NullableString
    case PNonNullableBytes => NonNullableBytes
    case PNullableBytes => NullableBytes
  }

  /** Parser::parse: a schema with one field per entry, in entry order. */
  function Parse(definition: seq<Entry>): (r: Type)
    ensures r.Schema? && |r.fields| == |definition|
    ensures forall i :: 0 <= i < |definition| ==> r.fields[i].name == definition[i].name
    decreases definition, 1
  {
    Schema(ParseFields(definition))
  }

  /** Parser::parseFields */
  function ParseFields(definition: seq<Entry>): (r: seq<Field>)
    ensures |r| == |definition|
    ensures forall i :: 0 <= i < |definition| ==> r[i] == Field(definition[i].name, ParseFieldType(definition[i].def))
    decreases definition, 0
  {
    if definition == [] then []
    else
      var last := definition[|definition| - 1];
      ParseFields(definition[..|definition| - 1]) + [Field(last.name, ParseFieldType(last.def))]
  }

  /**
   * Parser::parseFieldType: a class name, an array of the `_items` type
   * (nullable only if asked), or a nested schema. A PHP map holding `_items`
   * is always an ItemsDef here, so its meaning is kept only for WellFormed
   * definitions, whose nested maps hold no `_items` entry.
   */
  function ParseFieldType(d: Definition): (r: Type)
    decreases d, 2
  {
    match d
    case TypeRef(p) => PrimitiveType(p)
    case ItemsDef(items, nullable) => ArrayOf(ParseFieldType(items), nullable.GetOr(false))
    case Nested(entries) => Parse(entries)
  }

  /** The key that makes a definition map an array definition rather than a nested record. */
  const ITEMS_KEY := "_items"

  /** The keys of a PHP array are distinct. */
  predicate DistinctNames(entries: seq<Entry>) {
    forall i, j :: 0 <= i < j < |entries| ==> entries[i].name != entries[j].name
  }

  /** No two fields of a schema share a name. */
  predicate DistinctFieldNames(fields: seq<Field>) {
    forall i, j :: 0 <= i < j < |fields| ==> fields[i].name != fields[j].name
  }

  /**
   * A definition that stands for the PHP array it was written as: no nested
   * record repeats a key or holds an `_items` entry, since a map holding one
   * is an array definition. (The top-level map given to Parse may hold one:
   * parse does not look for it.)
   */
  predicate WellFormed(d: Definition)
    decreases d, 1
  {
    match d
    case TypeRef(_) => true
    case ItemsDef(items, _) => WellFormed(items)
    case Nested(entries) =>
      (forall i :: 0 <= i < |entries| ==> entries[i].name != ITEMS_KEY) && DistinctNames(entries) && WellFormedEntries(entries)
  }

  /** Every definition of the map is WellFormed. */
  predicate WellFormedEntries(entries: seq<Entry>)
    decreases entries, 0
  {
    forall i :: 0 <= i < |entries| ==> WellFormed(entries[i].def)
  }

  /** The types some WellFormed definition parses to: no nested schema repeats a field name or has a field named `_items`. */
  predicate Definable(t: Type)
    decreases t, 1
  {
    match t
    case ArrayOf(item, _) => Definable(item)
    case Schema(fields) =>
      (forall i :: 0 <= i < |fields| ==> fields[i].name != ITEMS_KEY) && DistinctFieldNames(fields) && DefinableFields(fields)
    case _ => true
  }

  /** Every field's type is Definable. */
  predicate DefinableFields(fields: seq<Field>)
    decreases fields, 0
  {
    forall i :: 0 <= i < |fields| ==> Definable(fields[i].typ)
  }

  // ------------------------------------------------------------ the partner: writing a type back as a definition

  function PrimitiveOf(t: Type): (r: Option<Primitive>)
    ensures r.Some? ==> PrimitiveType(r.value) == t
    ensures r.None? <==> t.ArrayOf? || t.Schema?
  {
    match t
    case Int8 => Some(PInt8)
    case Int16 => Some(PInt16)
    case Int32 => Some(PInt32)
    case Int64 => Some(PInt64)
    case UnsignedInt32 => Some(PUnsignedInt32)
    case Boolean => Some(PBoolean)
    case NonNullableString => Some(PNonNullableString)
    case NullableString => Some(PNullableString)
    case NonNullableBytes => Some(PNonNullableBytes)
    case NullableBytes => Some(PNullableBytes)
    case _ => None
  }

  /** The definition that describes a type, with every `_nullable` flag written out. */
  function Unparse(t: Type): Definition
    decreases t, 1
  {
    match t
    case ArrayOf(item, nullable) => ItemsDef(Unparse(item), Some(nullable))
    case Schema(fields) => Nested(UnparseFields(fields))
    case _ => TypeRef(PrimitiveOf(t).value)
  }

  function UnparseFields(fields: seq<Field>): (r: seq<Entry>)
    ensures |r| == |fields|
    ensures forall i :: 0 <= i < |fields| ==> r[i] == Entry(fields[i].name, Unparse(fields[i].typ))
    decreases fields, 0
  {
    if fields == [] then []
    else UnparseFields(fields[..|fields| - 1]) + [Entry(fields[|fields| - 1].name, Unparse(fields[|fields| - 1].typ))]
  }

  /** A definition with every omitted `_nullable` written out as its default, false. */
  function Normal(d: Definition): Definition
    decreases d, 1
  {
    match d
    case TypeRef(_) => d
    case ItemsDef(items, nullable) => ItemsDef(Normal(items), Some(nullable.GetOr(false)))
    case Nested(entries) => Nested(NormalEntries(entries))
  }

  function NormalEntries(entries: seq<Entry>): (r: seq<Entry>)
    ensures |r| == |entries|
    decreases entries, 0
  {
    if entries == [] then []
    else NormalEntries(entries[..|entries| - 1]) + [Entry(entries[|entries| - 1].name, Normal(entries[|entries| - 1].def))]
  }

  /** Every Definable type, records and arrays included, is what some WellFormed definition parses to. */
  lemma {:induction false} ParseUnparse(t: Type)
    requires Definable(t)
    ensures WellFormed(Unparse(t))
    ensures ParseFieldType(Unparse(t)) == t
    decreases t, 1
  {
    match t
    case ArrayOf(item, _) => ParseUnparse(item);
    case Schema(fields) => ParseUnparseFields(fields);
    case _ =>
  }

  lemma {:induction false} ParseUnparseFields(fields: seq<Field>)
    requires DistinctFieldNames(fields) && DefinableFields(fields)
    ensures DistinctNames(UnparseFields(fields)) && WellFormedEntries(UnparseFields(fields))
    ensures ParseFields(UnparseFields(fields)) == fields
    decreases fields, 0
  {
    var entries := UnparseFields(fields);
    var r := ParseFields(entries);
    forall i | 0 <= i < |fields|
      ensures WellFormed(entries[i].def) && r[i] == fields[i]
    {
      ParseUnparse(fields[i].typ);
    }
  }

  /**
   * A WellFormed definition parses to a Definable type, and parsing forgets
   * nothing but the omission of `_nullable`.
   */
  lemma {:induction false} UnparseParse(d: Definition)
    requires WellFormed(d)
    ensures Definable(ParseFieldType(d))
    ensures Unparse(ParseFieldType(d)) == Normal(d)
    decreases d, 1
  {
    match d
    case TypeRef(p) =>
    case ItemsDef(items, _) => UnparseParse(items);
    case Nested(entries) => UnparseParseEntries(entries);
  }

  lemma {:induction false} UnparseParseEntries(entries: seq<Entry>)
    requires DistinctNames(entries) && WellFormedEntries(entries)
    ensures DistinctFieldNames(ParseFields(entries)) && DefinableFields(ParseFields(entries))
    ensures UnparseFields(ParseFields(entries)) == NormalEntries(entries)
    decreases entries, 0
  {
    if entries != [] {
      var init := entries[..|entries| - 1];
      var fields := ParseFields(entries);
      assert fields[..|fields| - 1] == ParseFields(init);
      UnparseParseEntries(init);
      UnparseParse(entries[|entries| - 1].def);
    }
  }

  /** Two WellFormed definitions parse to the same type exactly when they agree once defaults are written out. */
  lemma ParseSameExactlyWhenNormalSame(d1: Definition, d2: Definition)
    requires WellFormed(d1) && WellFormed(d2)
    ensures ParseFieldType(d1) == ParseFieldType(d2) <==> Normal(d1) == Normal(d2)
  {
    UnparseParse(d1);
    UnparseParse(d2);
    if Normal(d1) == Normal(d2) {
      NormalIsParsedAlike(d1);
      NormalIsParsedAlike(d2);
    }
  }

  /** Writing out the defaults does not change what a definition parses to. */
  lemma {:induction false} NormalIsParsedAlike(d: Definition)
    ensures ParseFieldType(Normal(d)) == ParseFieldType(d)
    decreases d, 1
  {
    match d
    case TypeRef(_) =>
    case ItemsDef(items, _) => NormalIsParsedAlike(items);
    case Nested(entries) => NormalEntriesParsedAlike(entries);
  }

  lemma {:induction false} NormalEntriesParsedAlike(entries: seq<Entry>)
    ensures ParseFields(NormalEntries(entries)) == ParseFields(entries)
    decreases entries, 0
  {
    if entries != [] {
      var init := entries[..|entries| - 1];
      var normal := NormalEntries(entries);
      assert normal[..|normal| - 1] == NormalEntries(init);
      NormalEntriesParsedAlike(init);
      NormalIsParsedAlike(entries[|entries| - 1].def);
    }
  }

  /** The types a definition shape yields: arrays are nullable only when `_nullable` says so. */
  lemma ParsedNullability(d: Definition)
    requires WellFormed(d)
    ensures d.TypeRef? ==> !ParseFieldType(d).ArrayOf? && !ParseFieldType(d).Schema?
    ensures d.ItemsDef? ==> ParseFieldType(d).ArrayOf? && (IsNullable(ParseFieldType(d)) <==> d.nullable == Some(true))
    ensures d.Nested? ==> ParseFieldType(d).Schema? && !IsNullable(ParseFieldType(d))
  {
  }

  /** An empty definition is an empty schema: it takes no bytes and writes nothing for any array. */
  lemma EmptyDefinition(v: Value, room: int)
    requires HasKind(v, IsArray)
    ensures Parse([]) == Schema([])
    ensures SizeOf(Parse([]), v) == Success(0)
    ensures Encode(Parse([]), v, room) == Success([])
  {
  }
}
