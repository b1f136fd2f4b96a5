/**
 * Requests and their headers: the two-pass encoding every message goes
 * through (sizeOf, allocate exactly that much, write), the fixed request
 * header, the per-version schema tables of the two requests, and the
 * length-prefixed frame a channel puts on the wire.
 */
module Api {
  import opened Wire
  import opened Errors
  import opened Binary
  import opened Types
  import opened Codec
  import opened CodecLemmas
  import opened CodecOps
  import opened SchemaParser

  // ------------------------------------------------------------ two-pass encoding

  /** The content of a buffer allocated to `sizeOf(v)` and then written with `v`. */
  function TwoPass(t: Type, v: Value): (r: Result<seq<Byte>>) {
    var size :- SizeOf(t, v);
    Encode(t, v, size)
  }

  /** A successful two-pass encoding fills its buffer exactly: the size computed is the size written. */
  lemma TwoPassFillsBuffer(t: Type, v: Value)
    requires TwoPass(t, v).Success?
    ensures SizeOf(t, v).Success? && |TwoPass(t, v).value| == SizeOf(t, v).value
  {
    SizeOfMatchesWrite(t, v, SizeOf(t, v).value);
  }

  /** What a two-pass encoding produced reads back, from offset 0, as the value written and consumes all of it. */
  lemma TwoPassReadsBack(t: Type, v: Value)
    requires TwoPass(t, v).Success?
    ensures Decode(t, TwoPass(t, v).value, 0) == Success((Norm(t, v), |TwoPass(t, v).value|))
  {
    var e := TwoPass(t, v).value;
    assert e[0..|e|] == e;
    ReadAfterWrite(t, v, SizeOf(t, v).value, e, 0);
  }

  /** No validation precedes the write, but a value that would pass it always encodes. */
  lemma ValidValuesTwoPass(t: Type, v: Value)
    requires Validate(t, v).Pass? && Bounded(t, v)
    ensures TwoPass(t, v).Success?
  {
    ValidValuesWrite(t, v, 0);
    ValidValuesWrite(t, v, SizeOf(t, v).value);
  }

  /** Request::toBuffer and RequestHeaders::toBuffer: size, allocate, write. */
  method ToBuffer(t: Type, v: Value) returns (r: Result<Message>)
    ensures r.Success? <==> TwoPass(t, v).Success?
    ensures r.Failure? ==> r.error == TwoPass(t, v).error
    ensures r.Success? ==> fresh(r.value) && r.value.Valid()
    ensures r.Success? ==> r.value.bytes == TwoPass(t, v).value && r.value.position == r.value.length
  {
    var size := ComputeSize(t, v);
    if size.Failure? {
      return Failure(size.error);
    }
    var m := new Message.Allocate(size.value);
    var w := Write(t, v, m);
    if w.Fail? {
      return Failure(w.error);
    }
    SizeOfMatchesWrite(t, v, size.value);
    assert m.bytes == m.bytes[0..|m.bytes|];
    r := Success(m);
  }

  // ------------------------------------------------------------ request headers

  /** Which Response subclass parses the answer to a request. */
  datatype ResponseClass = ApiVersionsResponseClass | MetadataResponseClass

  /** RequestHeaders: the header fields plus the response class its factory parses with. */
  datatype RequestHeaders = RequestHeaders(
    apiKey: PhpInt,
    apiVersion: PhpInt,
    correlationId: PhpInt,
    client: seq<Byte>,
    responseClass: ResponseClass)

  /** RequestHeaders::SCHEMA */
  const HEADER_DEFINITION: seq<Entry> := [
    Entry("api_key", TypeRef(PInt16)),
    Entry("api_version", TypeRef(PInt16)),
    Entry("correlation_id", TypeRef(PInt32)),
    Entry("client_id", TypeRef(PNullableString))
  ]

  /** The data array RequestHeaders::toBuffer writes. */
  function HeaderData(h: RequestHeaders): Value {
    VMap(map[
      "api_key" := VInt(h.apiKey),
      "api_version" := VInt(h.apiVersion),
      "correlation_id" := VInt(h.correlationId),
      "client_id" := VString(h.client)])
  }

  /** The content of the buffer RequestHeaders::toBuffer returns. */
  function HeaderBytes(h: RequestHeaders): Result<seq<Byte>> {
    TwoPass(Parse(HEADER_DEFINITION), HeaderData(h))
  }

  /** The schema RequestHeaders::SCHEMA parses to. */
  const HEADER_TYPE: Type := Schema([
    Field("api_key", Int16), Field("api_version", Int16),
    Field("correlation_id", Int32), Field("client_id", NullableString)])

  lemma HeaderSchema()
    ensures Parse(HEADER_DEFINITION) == HEADER_TYPE
  {
    var d := HEADER_DEFINITION;
    assert d[..3][..2][..1][..0] == [];
  }

  /** Each header field finds its own entry of the data array. */
  lemma HeaderLookups(h: RequestHeaders)
    ensures Lookup(Entries(HeaderData(h)), "api_key") == VInt(h.apiKey)
    ensures Lookup(Entries(HeaderData(h)), "api_version") == VInt(h.apiVersion)
    ensures Lookup(Entries(HeaderData(h)), "correlation_id") == VInt(h.correlationId)
    ensures Lookup(Entries(HeaderData(h)), "client_id") == VString(h.client)
  {
  }

  /** An int field finds an int: it takes its format's width and writes as that format. */
  lemma IntField(f: Field, structure: map<string, Value>, room: int, format: NumberFormat, x: PhpInt)
    requires (f.typ == Int16 && format == SignedShort) || (f.typ == Int32 && format == SignedInt)
    requires Lookup(structure, f.name) == VInt(x)
    ensures FieldSize(f, structure) == Success(format.Width())
    ensures EncodeField(f, structure, room) == PutNumber(format, x, room)
  {
  }

  /** A nullable string field finds a string: its int16 length, then its bytes. */
  lemma StringField(f: Field, structure: map<string, Value>, room: int, c: seq<Byte>)
    requires f.typ == NullableString && Lookup(structure, f.name) == VString(c)
    ensures FieldSize(f, structure) == Success(2 + |c|)
    ensures EncodeField(f, structure, room) == EncodeBlob(SignedShort, c, room)
  {
  }

  /** One more field of the size fold. */
  lemma SizeFieldsStep(t: Type, n: nat, structure: map<string, Value>, init: int, last: int)
    requires t.Schema? && 0 < n <= |t.fields|
    requires SizeFields(t, n - 1, structure) == Success(init)
    requires FieldSize(t.fields[n - 1], structure) == Success(last)
    ensures SizeFields(t, n, structure) == Success(init + last)
  {
  }

  /** The size of each header field, whatever the data holds. */
  lemma HeaderFieldSizes(h: RequestHeaders)
    ensures FieldSize(HEADER_TYPE.fields[0], Entries(HeaderData(h))) == Success(2)
    ensures FieldSize(HEADER_TYPE.fields[1], Entries(HeaderData(h))) == Success(2)
    ensures FieldSize(HEADER_TYPE.fields[2], Entries(HeaderData(h))) == Success(4)
    ensures FieldSize(HEADER_TYPE.fields[3], Entries(HeaderData(h))) == Success(2 + |h.client|)
  {
    var t := HEADER_TYPE;
    var st := Entries(HeaderData(h));
    HeaderLookups(h);
    IntField(t.fields[0], st, 0, SignedShort, h.apiKey);
    IntField(t.fields[1], st, 0, SignedShort, h.apiVersion);
    IntField(t.fields[2], st, 0, SignedInt, h.correlationId);
    StringField(t.fields[3], st, 0, h.client);
  }

  /** Whatever the data, the header needs 10 bytes and its client id's. */
  lemma HeaderSize(h: RequestHeaders)
    ensures SizeOf(HEADER_TYPE, HeaderData(h)) == Success(10 + |h.client|)
  {
    var t := HEADER_TYPE;
    var st := Entries(HeaderData(h));
    HeaderFieldSizes(h);
    SizeFieldsStep(t, 1, st, 0, 2);
    SizeFieldsStep(t, 2, st, 2, 2);
    SizeFieldsStep(t, 3, st, 4, 4);
    SizeFieldsStep(t, 4, st, 8, 2 + |h.client|);
  }

  /** A string of at most int16 length writes as that length and its bytes into room enough for both. */
  lemma ShortBlob(c: seq<Byte>, room: int)
    ensures |c| > SHORT_MAX ==> EncodeBlob(SignedShort, c, room) == Failure(ValueOutOfAllowedRange(|c|, SHORT_MIN, SHORT_MAX))
    ensures |c| <= SHORT_MAX && room >= 2 + |c| ==> EncodeBlob(SignedShort, c, room) == Success(Pack(|c|, 2) + c)
  {
  }

  /** An int that fits its format writes as its big-endian bytes into room enough for them. */
  lemma FittingNumber(format: NumberFormat, x: int, room: int)
    requires format.Lower() <= x <= format.Upper() && room >= format.Width()
    ensures PutNumber(format, x, room) == Success(Pack(x, format.Width()))
  {
  }

  /** The content of the header's buffer is its fields written into exactly the size computed. */
  lemma HeaderBytesAreFields(h: RequestHeaders)
    ensures HeaderBytes(h) == EncodeFields(HEADER_TYPE, 4, Entries(HeaderData(h)), 10 + |h.client|)
  {
    HeaderSchema();
    HeaderSize(h);
  }

  /** One more field of the write fold, when it succeeds. */
  lemma FieldsWriteAppend(t: Type, i: nat, structure: map<string, Value>, room: int, written: seq<Byte>, field: seq<Byte>)
    requires t.Schema? && i < |t.fields| && EncodeFields(t, i, structure, room) == Success(written)
    requires EncodeField(t.fields[i], structure, room - |written|) == Success(field)
    ensures EncodeFields(t, i + 1, structure, room) == Success(written + field)
  {
  }

  /** The second field of a schema follows the first, in the size fold and in the write fold. */
  lemma SecondField(t: Type, structure: map<string, Value>, room: int, first: seq<Byte>, second: seq<Byte>)
    requires t.Schema? && 2 <= |t.fields|
    requires SizeFields(t, 1, structure) == Success(|first|) && EncodeFields(t, 1, structure, room) == Success(first)
    requires FieldSize(t.fields[1], structure) == Success(|second|)
    requires EncodeField(t.fields[1], structure, room - |first|) == Success(second)
    ensures SizeFields(t, 2, structure) == Success(|first| + |second|)
    ensures EncodeFields(t, 2, structure, room) == Success(first + second)
  {
    SizeFieldsStep(t, 2, structure, |first|, |second|);
    FieldsWriteAppend(t, 1, structure, room, first, second);
  }

  /** The first field of the write fold. */
  lemma FieldsWriteFirst(t: Type, structure: map<string, Value>, room: int, field: seq<Byte>)
    requires t.Schema? && 0 < |t.fields| && EncodeField(t.fields[0], structure, room) == Success(field)
    ensures EncodeFields(t, 1, structure, room) == Success(field)
  {
    assert [] + field == field;
  }

  /** One more field of the write fold, when it fails: the fold fails with its error. */
  lemma FieldsWriteFail(t: Type, i: nat, structure: map<string, Value>, room: int, written: seq<Byte>, e: Error)
    requires t.Schema? && i < |t.fields| && EncodeFields(t, i, structure, room) == Success(written)
    requires EncodeField(t.fields[i], structure, room - |written|) == Failure(e)
    ensures EncodeFields(t, i + 1, structure, room) == Failure(e)
  {
  }

  /** The client id field writes the client's bytes as a nullable string. */
  lemma HeaderClientField(h: RequestHeaders, room: int)
    ensures EncodeField(HEADER_TYPE.fields[3], Entries(HeaderData(h)), room) == EncodeBlob(SignedShort, h.client, room)
  {
    HeaderLookups(h);
    StringField(HEADER_TYPE.fields[3], Entries(HeaderData(h)), room, h.client);
  }

  /** A client id longer than int16 allows fails its field with the range error of its length. */
  lemma HeaderClientTooLongField(h: RequestHeaders, room: int)
    requires |h.client| > SHORT_MAX
    ensures EncodeField(HEADER_TYPE.fields[3], Entries(HeaderData(h)), room)
      == Failure(ValueOutOfAllowedRange(|h.client|, SHORT_MIN, SHORT_MAX))
  {
    HeaderClientField(h, room);
    ShortBlob(h.client, room);
  }

  /** An int field that finds an int fitting its format writes that int's big-endian bytes. */
  lemma FittingIntField(f: Field, structure: map<string, Value>, room: int, format: NumberFormat, x: PhpInt)
    requires (f.typ == Int16 && format == SignedShort) || (f.typ == Int32 && format == SignedInt)
    requires Lookup(structure, f.name) == VInt(x)
    requires format.Lower() <= x <= format.Upper() && room >= format.Width()
    ensures EncodeField(f, structure, room) == Success(Pack(x, format.Width()))
  {
    IntField(f, structure, room, format, x);
  }

  /** The three fixed-width header fields, each in range, written into room enough for them. */
  lemma HeaderNumberFields(h: RequestHeaders, room: int)
    requires SHORT_MIN <= h.apiKey <= SHORT_MAX && SHORT_MIN <= h.apiVersion <= SHORT_MAX
    requires INT_MIN <= h.correlationId <= INT_MAX && room >= 8
    ensures EncodeField(HEADER_TYPE.fields[0], Entries(HeaderData(h)), room) == Success(Pack(h.apiKey, 2))
    ensures EncodeField(HEADER_TYPE.fields[1], Entries(HeaderData(h)), room - 2) == Success(Pack(h.apiVersion, 2))
    ensures EncodeField(HEADER_TYPE.fields[2], Entries(HeaderData(h)), room - 4) == Success(Pack(h.correlationId, 4))
  {
    var t := HEADER_TYPE;
    var st := Entries(HeaderData(h));
    HeaderLookups(h);
    FittingIntField(t.fields[0], st, room, SignedShort, h.apiKey);
    FittingIntField(t.fields[1], st, room - 2, SignedShort, h.apiVersion);
    FittingIntField(t.fields[2], st, room - 4, SignedInt, h.correlationId);
  }

  /** The three fixed-width fields, when in range, fill the first 8 bytes of any room of at least 8. */
  lemma HeaderNumbers(h: RequestHeaders, room: int)
    requires SHORT_MIN <= h.apiKey <= SHORT_MAX && SHORT_MIN <= h.apiVersion <= SHORT_MAX
    requires INT_MIN <= h.correlationId <= INT_MAX && room >= 8
    ensures EncodeFields(HEADER_TYPE, 3, Entries(HeaderData(h)), room)
      == Success(Pack(h.apiKey, 2) + Pack(h.apiVersion, 2) + Pack(h.correlationId, 4))
  {
    var t := HEADER_TYPE;
    var st := Entries(HeaderData(h));
    var a, b, c := Pack(h.apiKey, 2), Pack(h.apiVersion, 2), Pack(h.correlationId, 4);
    HeaderNumberFields(h, room);
    FieldsWriteFirst(t, st, room, a);
    FieldsWriteAppend(t, 1, st, room, a, b);
    FieldsWriteAppend(t, 2, st, room, a + b, c);
  }

  /**
   * The header is api_key and api_version as int16, correlation_id as int32
   * and client_id as an int16 length and its bytes: 10 + |client| bytes.
   */
  lemma HeaderLayout(h: RequestHeaders)
    requires SHORT_MIN <= h.apiKey <= SHORT_MAX && SHORT_MIN <= h.apiVersion <= SHORT_MAX
    requires INT_MIN <= h.correlationId <= INT_MAX && |h.client| <= SHORT_MAX
    ensures HeaderBytes(h) == Success(Pack(h.apiKey, 2) + Pack(h.apiVersion, 2) + Pack(h.correlationId, 4)
      + Pack(|h.client|, 2) + h.client)
    ensures |HeaderBytes(h).value| == 10 + |h.client|
  {
    var t := HEADER_TYPE;
    var st := Entries(HeaderData(h));
    var room := 10 + |h.client|;
    var numbers := Pack(h.apiKey, 2) + Pack(h.apiVersion, 2) + Pack(h.correlationId, 4);
    HeaderBytesAreFields(h);
    HeaderNumbers(h, room);
    assert |numbers| == 8;
    HeaderClientField(h, room - |numbers|);
    ShortBlob(h.client, room - |numbers|);
    FieldsWriteAppend(t, 3, st, room, numbers, Pack(|h.client|, 2) + h.client);
    assert numbers + (Pack(|h.client|, 2) + h.client) == numbers + Pack(|h.client|, 2) + h.client;
  }

  /** With no validation first, an api key outside int16 surfaces as the buffer's range error. */
  lemma HeaderApiKeyOutOfRange(h: RequestHeaders)
    requires h.apiKey < SHORT_MIN || h.apiKey > SHORT_MAX
    ensures HeaderBytes(h) == Failure(ValueOutOfAllowedRange(h.apiKey, SHORT_MIN, SHORT_MAX))
  {
    var t := HEADER_TYPE;
    var st := Entries(HeaderData(h));
    var room := 10 + |h.client|;
    HeaderBytesAreFields(h);
    HeaderLookups(h);
    IntField(t.fields[0], st, room, SignedShort, h.apiKey);
    FieldsWriteStep(t, 0, st, room, []);
    FieldsWriteFailurePersists(t, 1, 4, st, room);
  }

  /** A client id longer than int16 allows fails on its length prefix, again as a range error. */
  lemma HeaderClientTooLong(h: RequestHeaders)
    requires SHORT_MIN <= h.apiKey <= SHORT_MAX && SHORT_MIN <= h.apiVersion <= SHORT_MAX
    requires INT_MIN <= h.correlationId <= INT_MAX && |h.client| > SHORT_MAX
    ensures HeaderBytes(h) == Failure(ValueOutOfAllowedRange(|h.client|, SHORT_MIN, SHORT_MAX))
  {
    HeaderBytesAreFields(h);
    HeaderFieldsClientTooLong(h, 10 + |h.client|);
  }

  lemma HeaderFieldsClientTooLong(h: RequestHeaders, room: int)
    requires SHORT_MIN <= h.apiKey <= SHORT_MAX && SHORT_MIN <= h.apiVersion <= SHORT_MAX
    requires INT_MIN <= h.correlationId <= INT_MAX && |h.client| > SHORT_MAX && room >= 8
    ensures EncodeFields(HEADER_TYPE, 4, Entries(HeaderData(h)), room)
      == Failure(ValueOutOfAllowedRange(|h.client|, SHORT_MIN, SHORT_MAX))
  {
    var st := Entries(HeaderData(h));
    HeaderNumbers(h, room);
    var numbers := EncodeFields(HEADER_TYPE, 3, st, room).value;
    HeaderClientTooLongField(h, room - |numbers|);
    FieldsWriteFail(HEADER_TYPE, 3, st, room, numbers, ValueOutOfAllowedRange(|h.client|, SHORT_MIN, SHORT_MAX));
  }

  // ------------------------------------------------------------ requests

  /** The two requests of the core, with their constructor arguments. */
  datatype Request =
    | ApiVersionsRequest
    | MetadataRequest(topics: Option<seq<seq<Byte>>>, allowTopicCreation: bool)

  function ApiKey(r: Request): int {
    match r
    case ApiVersionsRequest => 18
    case MetadataRequest(_, _) => 3
  }

  /** MetadataRequest v0: a non-nullable array of topic names. */
  const METADATA_REQUEST_V0: seq<Entry> := [Entry("topics", ItemsDef(TypeRef(PNonNullableString), None))]

  /** MetadataRequest::SCHEMA_V1: the topic array becomes nullable. */
  const METADATA_REQUEST_V1: seq<Entry> := [Entry("topics", ItemsDef(TypeRef(PNonNullableString), Some(true)))]

  /** MetadataRequest::SCHEMA_V4: SCHEMA_V1 followed by allow_auto_topic_creation. */
  const METADATA_REQUEST_V4: seq<Entry> := METADATA_REQUEST_V1 + [Entry("allow_auto_topic_creation", TypeRef(PBoolean))]

  /** The SCHEMA_VERSIONS table of each request, indexed by version. */
  function SchemaVersions(r: Request): (table: seq<seq<Entry>>)
    ensures |table| > 0
  {
    match r
    case ApiVersionsRequest => [[], [], []]
    case MetadataRequest(_, _) =>
      [METADATA_REQUEST_V0, METADATA_REQUEST_V1, METADATA_REQUEST_V1, METADATA_REQUEST_V1,
       METADATA_REQUEST_V4, METADATA_REQUEST_V4, METADATA_REQUEST_V4, METADATA_REQUEST_V4]
  }

  /** highestSupportedVersion: array_key_last of the table for ApiVersions, the constant 7 for Metadata. */
  function HighestSupportedVersion(r: Request): int {
    match r
    case ApiVersionsRequest => |SchemaVersions(r)| - 1
    case MetadataRequest(_, _) => 7
  }

  /** The constant version of Metadata agrees with its table: both requests advertise their last table entry. */
  lemma HighestVersionIsLastEntry(r: Request)
    ensures HighestSupportedVersion(r) == |SchemaVersions(r)| - 1
    ensures r.ApiVersionsRequest? ==> HighestSupportedVersion(r) == 2
  {
  }

  /** schemaDefinition: the table entry for `version`, or an error for a version outside the table. */
  function SchemaDefinition(r: Request, version: int): (d: Result<seq<Entry>>)
    ensures d.Success? <==> 0 <= version < |SchemaVersions(r)|
    ensures d.Success? ==> d.value == SchemaVersions(r)[version]
    ensures d.Failure? ==> d.error == UnknownSchemaVersion(version)
  {
    if 0 <= version < |SchemaVersions(r)| then Success(SchemaVersions(r)[version])
    else Failure(UnknownSchemaVersion(version))
  }

  /** A list of topic names as the PHP array of strings. */
  function TopicList(topics: seq<seq<Byte>>): (v: Value)
    ensures v.VList? && |v.items| == |topics|
  {
    VList(TopicStrings(topics))
  }

  function TopicStrings(topics: seq<seq<Byte>>): (items: seq<Value>)
    ensures |items| == |topics|
  {
    if topics == [] then [] else TopicStrings(topics[..|topics| - 1]) + [VString(topics[|topics| - 1])]
  }

  /** asArray: empty for ApiVersions; for Metadata, topics (null becomes [] only in v0) and the creation flag. */
  function AsArray(r: Request, version: int): Value {
    match r
    case ApiVersionsRequest => VMap(map[])
    case MetadataRequest(topics, allow) =>
      VMap(map["topics" := TopicsValue(topics, version), "allow_auto_topic_creation" := VBool(allow)])
  }

  /** The topics entry of asArray: the names, or for null an empty array in v0 and null afterwards. */
  function TopicsValue(topics: Option<seq<seq<Byte>>>, version: int): Value {
    if topics.Some? then TopicList(topics.value) else if version == 0 then VList([]) else VNull
  }

  function ResponseClassOf(r: Request): ResponseClass {
    match r
    case ApiVersionsRequest => ApiVersionsResponseClass
    case MetadataRequest(_, _) => MetadataResponseClass
  }

  /** The content of the buffer Request::toBuffer returns for `version`. */
  function RequestBytes(r: Request, version: int): Result<seq<Byte>> {
    var d :- SchemaDefinition(r, version);
    TwoPass(Parse(d), AsArray(r, version))
  }

  /** Request::toBuffer */
  method RequestToBuffer(r: Request, version: int) returns (b: Result<Message>)
    ensures b.Success? <==> RequestBytes(r, version).Success?
    ensures b.Failure? ==> b.error == RequestBytes(r, version).error
    ensures b.Success? ==> fresh(b.value) && b.value.Valid()
    ensures b.Success? ==> b.value.bytes == RequestBytes(r, version).value && b.value.position == b.value.length
  {
    var d := SchemaDefinition(r, version);
    if d.Failure? {
      return Failure(d.error);
    }
    b := ToBuffer(Parse(d.value), AsArray(r, version));
  }

  /** Every ApiVersions version has an empty definition, so its body is empty. */
  lemma ApiVersionsBodyEmpty(version: int)
    requires 0 <= version <= HighestSupportedVersion(ApiVersionsRequest)
    ensures RequestBytes(ApiVersionsRequest, version) == Success([])
  {
    EmptyDefinition(AsArray(ApiVersionsRequest, version), 0);
  }

  /** The bytes of a list of strings written one after the other, each with its int16 length. */
  function StringsBytes(topics: seq<seq<Byte>>): seq<Byte> {
    if topics == [] then []
    else StringsBytes(topics[..|topics| - 1]) + Pack(|topics[|topics| - 1]|, 2) + topics[|topics| - 1]
  }

  function StringsSize(topics: seq<seq<Byte>>): (n: nat)
    ensures n == |StringsBytes(topics)|
  {
    if topics == [] then 0
    else StringsSize(topics[..|topics| - 1]) + 2 + |topics[|topics| - 1]|
  }

  /** Every name fits behind an int16 length. */
  predicate ShortStrings(topics: seq<seq<Byte>>) {
    topics == [] || (ShortStrings(topics[..|topics| - 1]) && |topics[|topics| - 1]| <= SHORT_MAX)
  }

  lemma {:induction false} ShortStringsEach(topics: seq<seq<Byte>>)
    ensures ShortStrings(topics) <==> forall i :: 0 <= i < |topics| ==> |topics[i]| <= SHORT_MAX
  {
    if topics != [] {
      var init := topics[..|topics| - 1];
      ShortStringsEach(init);
      assert forall i :: 0 <= i < |init| ==> init[i] == topics[i];
    }
  }

  /** The array holds each name as a string, in order. */
  lemma {:induction false} TopicListItems(topics: seq<seq<Byte>>)
    ensures forall i :: 0 <= i < |topics| ==> TopicList(topics).items[i] == VString(topics[i])
  {
    if topics != [] {
      TopicListItems(topics[..|topics| - 1]);
      TopicStringsSplit(topics);
    }
  }

  /** The names of all topics but the last, and the last name. */
  lemma TopicStringsSplit(topics: seq<seq<Byte>>)
    requires topics != []
    ensures TopicStrings(topics)[..|topics| - 1] == TopicStrings(topics[..|topics| - 1])
    ensures TopicStrings(topics)[|topics| - 1] == VString(topics[|topics| - 1])
  {
  }

  /** A topic array's items need their int16 lengths and their bytes. */
  lemma {:induction false} TopicSizes(nullable: bool, topics: seq<seq<Byte>>)
    ensures SizeItems(ArrayOf(NonNullableString, nullable), TopicStrings(topics)) == Success(StringsSize(topics))
  {
    if topics != [] {
      var init, last := topics[..|topics| - 1], topics[|topics| - 1];
      TopicsSplitLast(topics);
      TopicSizes(nullable, init);
      TopicSizeStep(nullable, TopicStrings(init), StringsSize(init), last);
    }
  }

  /** One more name adds its int16 length and its bytes to the size. */
  lemma TopicSizeStep(nullable: bool, init: seq<Value>, size: int, last: seq<Byte>)
    requires SizeItems(ArrayOf(NonNullableString, nullable), init) == Success(size)
    ensures SizeItems(ArrayOf(NonNullableString, nullable), init + [VString(last)]) == Success(size + 2 + |last|)
  {
    assert SizeItem(ArrayOf(NonNullableString, nullable), VString(last)) == Success(2 + |last|);
    assert (init + [VString(last)])[..|init|] == init;
  }

  /** A topic array's items write as their int16 lengths and bytes, given room enough for all of them. */
  lemma {:induction false} TopicWrites(nullable: bool, topics: seq<seq<Byte>>, room: int)
    requires ShortStrings(topics) && room >= StringsSize(topics)
    ensures EncodeItems(ArrayOf(NonNullableString, nullable), TopicStrings(topics), room) == Success(StringsBytes(topics))
  {
    if topics != [] {
      var init, last := topics[..|topics| - 1], topics[|topics| - 1];
      TopicsSplitLast(topics);
      TopicWrites(nullable, init, room);
      TopicWriteStep(nullable, TopicStrings(init), StringsBytes(init), last, room);
    }
  }

  /** Once the first topics are written, one more follows them. */
  lemma TopicWriteStep(nullable: bool, init: seq<Value>, written: seq<Byte>, last: seq<Byte>, room: int)
    requires |last| <= SHORT_MAX && room >= |written| + 2 + |last|
    requires EncodeItems(ArrayOf(NonNullableString, nullable), init, room) == Success(written)
    ensures EncodeItems(ArrayOf(NonNullableString, nullable), init + [VString(last)], room)
      == Success(written + (Pack(|last|, 2) + last))
  {
    TopicWrite(nullable, last, room - |written|);
    ItemsWriteAppend(ArrayOf(NonNullableString, nullable), init, VString(last), room, written, Pack(|last|, 2) + last);
  }

  /** One more item of the write fold, when it succeeds. */
  lemma ItemsWriteAppend(t: Type, init: seq<Value>, last: Value, room: int, written: seq<Byte>, item: seq<Byte>)
    requires t.ArrayOf? && EncodeItems(t, init, room) == Success(written)
    requires EncodeItem(t, last, room - |written|) == Success(item)
    ensures EncodeItems(t, init + [last], room) == Success(written + item)
  {
    assert (init + [last])[..|init|] == init;
  }

  /** One topic name: its int16 length, then its bytes. */
  lemma TopicWrite(nullable: bool, name: seq<Byte>, room: int)
    requires |name| <= SHORT_MAX && room >= 2 + |name|
    ensures EncodeItem(ArrayOf(NonNullableString, nullable), VString(name), room) == Success(Pack(|name|, 2) + name)
  {
    ShortBlob(name, room);
  }

  /** The last topic's item, bytes and size come after those of the others. */
  lemma TopicsSplitLast(topics: seq<seq<Byte>>)
    requires topics != []
    ensures var init, last := topics[..|topics| - 1], topics[|topics| - 1];
      && TopicStrings(topics) == TopicStrings(init) + [VString(last)]
      && StringsBytes(topics) == StringsBytes(init) + (Pack(|last|, 2) + last)
      && StringsSize(topics) == |StringsBytes(init)| + 2 + |last|
  {
    var init, last := topics[..|topics| - 1], topics[|topics| - 1];
    assert StringsBytes(init) + Pack(|last|, 2) + last == StringsBytes(init) + (Pack(|last|, 2) + last);
  }

  /** The topics field: an int32 count (or -1 for null) followed by the topics. */
  function TopicsBytes(topics: Option<seq<seq<Byte>>>, version: int): seq<Byte> {
    if topics.Some? then Pack(|topics.value|, 4) + StringsBytes(topics.value)
    else if version == 0 then Pack(0, 4)
    else Pack(-1, 4)
  }

  /** The schema each Metadata version parses to: the topic array, nullable from v1, then from v4 the flag. */
  function MetadataRequestType(version: int): Type {
    var topics := Field("topics", ArrayOf(NonNullableString, version > 0));
    if version >= 4 then Schema([topics, Field("allow_auto_topic_creation", Boolean)])
    else Schema([topics])
  }

  lemma MetadataSchema(r: Request, version: int)
    requires r.MetadataRequest? && 0 <= version <= 7
    ensures Parse(SchemaVersions(r)[version]) == MetadataRequestType(version)
  {
    var v4 := METADATA_REQUEST_V4;
    assert v4[..1] == METADATA_REQUEST_V1;
  }

  /** Each Metadata field finds its own entry of the data array. */
  lemma MetadataLookups(r: Request, version: int)
    requires r.MetadataRequest?
    ensures Lookup(Entries(AsArray(r, version)), "topics") == TopicsValue(r.topics, version)
    ensures Lookup(Entries(AsArray(r, version)), "allow_auto_topic_creation") == VBool(r.allowTopicCreation)
  {
  }

  /** The topics field takes as many bytes as it writes, and writes its count and then its names. */
  lemma TopicsField(r: Request, version: int, room: int)
    requires r.MetadataRequest? && 0 <= version
    requires r.topics.Some? ==> ShortStrings(r.topics.value) && |r.topics.value| <= INT_MAX
    requires room >= |TopicsBytes(r.topics, version)|
    ensures FieldSize(MetadataRequestType(version).fields[0], Entries(AsArray(r, version)))
      == Success(|TopicsBytes(r.topics, version)|)
    ensures EncodeField(MetadataRequestType(version).fields[0], Entries(AsArray(r, version)), room)
      == Success(TopicsBytes(r.topics, version))
  {
    MetadataLookups(r, version);
    var f := Field("topics", ArrayOf(NonNullableString, version > 0));
    assert MetadataRequestType(version).fields[0] == f;
    TopicsFieldOf(f, Entries(AsArray(r, version)), r.topics, version, room);
  }

  /** The topics field over whatever data holds the topics entry. */
  lemma TopicsFieldOf(f: Field, structure: map<string, Value>, topics: Option<seq<seq<Byte>>>, version: int, room: int)
    requires f == Field("topics", ArrayOf(NonNullableString, version > 0)) && 0 <= version
    requires Lookup(structure, "topics") == TopicsValue(topics, version)
    requires topics.Some? ==> ShortStrings(topics.value) && |topics.value| <= INT_MAX
    requires room >= |TopicsBytes(topics, version)|
    ensures FieldSize(f, structure) == Success(|TopicsBytes(topics, version)|)
    ensures EncodeField(f, structure, room) == Success(TopicsBytes(topics, version))
  {
    if topics.Some? {
      TopicListField(f, version > 0, structure, topics.value, room, TopicsBytes(topics, version));
    } else if version == 0 {
      EmptyListField(f, structure, room, TopicsBytes(topics, version));
    } else {
      NullListField(f, structure, room, TopicsBytes(topics, version));
    }
  }

  /** An array field that finds an empty list: a zero count and nothing after it. */
  lemma EmptyListField(f: Field, structure: map<string, Value>, room: int, bytes: seq<Byte>)
    requires f.typ.ArrayOf? && Lookup(structure, f.name) == VList([]) && room >= 4 && bytes == Pack(0, 4)
    ensures FieldSize(f, structure) == Success(|bytes|)
    ensures EncodeField(f, structure, room) == Success(bytes)
  {
    FittingNumber(SignedInt, 0, room);
    assert ExtractValue(f, structure) == Success(VList([]));
    assert SizeItems(f.typ, []) == Success(0) && EncodeItems(f.typ, [], room - 4) == Success([]);
    assert Pack(0, 4) + [] == Pack(0, 4);
  }

  /** A nullable array field that finds null: a count of -1. */
  lemma NullListField(f: Field, structure: map<string, Value>, room: int, bytes: seq<Byte>)
    requires f.typ.ArrayOf? && f.typ.nullable && Lookup(structure, f.name) == VNull && room >= 4 && bytes == Pack(-1, 4)
    ensures FieldSize(f, structure) == Success(|bytes|)
    ensures EncodeField(f, structure, room) == Success(bytes)
  {
    FittingNumber(SignedInt, -1, room);
    assert ExtractValue(f, structure) == Success(VNull);
  }

  /** An array-of-strings field that finds a list of short names. */
  lemma TopicListField(f: Field, nullable: bool, structure: map<string, Value>, topics: seq<seq<Byte>>, room: int, bytes: seq<Byte>)
    requires f.typ == ArrayOf(NonNullableString, nullable)
    requires Lookup(structure, f.name) == TopicList(topics)
    requires ShortStrings(topics) && |topics| <= INT_MAX && room >= |bytes|
    requires bytes == Pack(|topics|, 4) + StringsBytes(topics)
    ensures FieldSize(f, structure) == Success(|bytes|)
    ensures EncodeField(f, structure, room) == Success(bytes)
  {
    TopicSizes(nullable, topics);
    TopicWrites(nullable, topics, room - 4);
    ListField(f, structure, TopicStrings(topics), StringsBytes(topics), room, bytes);
  }

  /** An array field that finds a list: its int32 count, then its items. */
  lemma ListField(f: Field, structure: map<string, Value>, items: seq<Value>, body: seq<Byte>, room: int, bytes: seq<Byte>)
    requires f.typ.ArrayOf? && Lookup(structure, f.name) == VList(items) && |items| <= INT_MAX && room >= 4
    requires SizeItems(f.typ, items) == Success(|body|)
    requires EncodeItems(f.typ, items, room - 4) == Success(body)
    requires bytes == Pack(|items|, 4) + body
    ensures FieldSize(f, structure) == Success(|bytes|)
    ensures EncodeField(f, structure, room) == Success(bytes)
  {
    FittingNumber(SignedInt, |items|, room);
    assert ExtractValue(f, structure) == Success(VList(items));
  }

  /** allow_auto_topic_creation: one byte, 1 for true and 0 for false. */
  lemma FlagField(r: Request, version: int, room: int)
    requires r.MetadataRequest? && version >= 4 && room >= 1
    ensures FieldSize(MetadataRequestType(version).fields[1], Entries(AsArray(r, version))) == Success(1)
    ensures EncodeField(MetadataRequestType(version).fields[1], Entries(AsArray(r, version)), room)
      == Success([if r.allowTopicCreation then 1 else 0])
  {
    MetadataLookups(r, version);
    var f := Field("allow_auto_topic_creation", Boolean);
    assert MetadataRequestType(version).fields[1] == f;
    BooleanField(f, Entries(AsArray(r, version)), r.allowTopicCreation, room, [if r.allowTopicCreation then 1 else 0]);
  }

  /** A boolean field that finds a boolean: one byte, 1 for true and 0 for false. */
  lemma BooleanField(f: Field, structure: map<string, Value>, flag: bool, room: int, bytes: seq<Byte>)
    requires f.typ == Boolean && Lookup(structure, f.name) == VBool(flag) && room >= 1
    requires bytes == [if flag then 1 else 0]
    ensures FieldSize(f, structure) == Success(|bytes|)
    ensures EncodeField(f, structure, room) == Success(bytes)
  {
    var x := if flag then 1 else 0;
    FittingNumber(SignedByte, x, room);
    Pow256Widths();
    assert ExtractValue(f, structure) == Success(VBool(flag));
    var b := Pack(x, 1);
    assert b == [b[0]];
  }

  /** The body of a Metadata request, field by field. */
  function MetadataBody(r: Request, version: int): seq<Byte>
    requires r.MetadataRequest?
  {
    TopicsBytes(r.topics, version) + (if version >= 4 then [if r.allowTopicCreation then 1 else 0] else [])
  }

  lemma MetadataFields(r: Request, version: int)
    requires r.MetadataRequest? && 0 <= version <= 7
    requires r.topics.Some? ==> ShortStrings(r.topics.value) && |r.topics.value| <= INT_MAX
    ensures SizeOf(MetadataRequestType(version), AsArray(r, version)) == Success(|MetadataBody(r, version)|)
    ensures Encode(MetadataRequestType(version), AsArray(r, version), |MetadataBody(r, version)|)
      == Success(MetadataBody(r, version))
  {
    var t := MetadataRequestType(version);
    var room := |MetadataBody(r, version)|;
    TopicsFieldFirst(r, version, room);
    if version >= 4 {
      FlagFieldSecond(r, version, room);
    } else {
      assert TopicsBytes(r.topics, version) + [] == TopicsBytes(r.topics, version);
    }
  }

  /** The first field of every Metadata version: the topics. */
  lemma TopicsFieldFirst(r: Request, version: int, room: int)
    requires r.MetadataRequest? && 0 <= version <= 7
    requires r.topics.Some? ==> ShortStrings(r.topics.value) && |r.topics.value| <= INT_MAX
    requires room >= |TopicsBytes(r.topics, version)|
    ensures SizeFields(MetadataRequestType(version), 1, Entries(AsArray(r, version))) == Success(|TopicsBytes(r.topics, version)|)
    ensures EncodeFields(MetadataRequestType(version), 1, Entries(AsArray(r, version)), room) == Success(TopicsBytes(r.topics, version))
  {
    var t := MetadataRequestType(version);
    var st := Entries(AsArray(r, version));
    var topics := TopicsBytes(r.topics, version);
    TopicsField(r, version, room);
    SizeFieldsStep(t, 1, st, 0, |topics|);
    FieldsWriteFirst(t, st, room, topics);
  }

  /** From v4 on, the flag follows the topics. */
  lemma FlagFieldSecond(r: Request, version: int, room: int)
    requires r.MetadataRequest? && 4 <= version <= 7
    requires room == |TopicsBytes(r.topics, version)| + 1
    requires SizeFields(MetadataRequestType(version), 1, Entries(AsArray(r, version))) == Success(|TopicsBytes(r.topics, version)|)
    requires EncodeFields(MetadataRequestType(version), 1, Entries(AsArray(r, version)), room) == Success(TopicsBytes(r.topics, version))
    ensures SizeFields(MetadataRequestType(version), 2, Entries(AsArray(r, version))) == Success(room)
    ensures EncodeFields(MetadataRequestType(version), 2, Entries(AsArray(r, version)), room)
      == Success(TopicsBytes(r.topics, version) + [if r.allowTopicCreation then 1 else 0])
  {
    MetadataLookups(r, version);
    FlagAfter(MetadataRequestType(version), Entries(AsArray(r, version)), r.allowTopicCreation, room, TopicsBytes(r.topics, version));
  }

  /** A boolean second field after a first one of known bytes. */
  lemma FlagAfter(t: Type, structure: map<string, Value>, flag: bool, room: int, first: seq<Byte>)
    requires t.Schema? && 2 <= |t.fields| && t.fields[1] == Field("allow_auto_topic_creation", Boolean)
    requires Lookup(structure, "allow_auto_topic_creation") == VBool(flag) && room == |first| + 1
    requires SizeFields(t, 1, structure) == Success(|first|) && EncodeFields(t, 1, structure, room) == Success(first)
    ensures SizeFields(t, 2, structure) == Success(room)
    ensures EncodeFields(t, 2, structure, room) == Success(first + [if flag then 1 else 0])
  {
    var bytes := [if flag then 1 else 0];
    BooleanField(t.fields[1], structure, flag, room - |first|, bytes);
    SecondField(t, structure, room, first, bytes);
  }

  /**
   * A Metadata request body is the topics field, followed from v4 on by the
   * creation flag as one byte; null topics go out as an empty array in v0
   * and as -1 afterwards.
   */
  lemma MetadataRequestLayout(r: Request, version: int)
    requires r.MetadataRequest? && 0 <= version <= 7
    requires r.topics.Some? ==> ShortStrings(r.topics.value) && |r.topics.value| <= INT_MAX
    ensures RequestBytes(r, version) == Success(MetadataBody(r, version))
  {
    var t, body := MetadataRequestType(version), MetadataBody(r, version);
    MetadataSchema(r, version);
    MetadataFields(r, version);
    TwoPassOf(t, AsArray(r, version), body);
    RequestBytesOf(r, version, t, body);
  }

  /** A value whose size is its bytes' length, and which writes them into that room, encodes to them in two passes. */
  lemma TwoPassOf(t: Type, v: Value, body: seq<Byte>)
    requires SizeOf(t, v) == Success(|body|) && Encode(t, v, |body|) == Success(body)
    ensures TwoPass(t, v) == Success(body)
  {
  }

  /** A request's body is the two-pass encoding of its data under the schema its version's definition parses to. */
  lemma RequestBytesOf(r: Request, version: int, t: Type, body: seq<Byte>)
    requires 0 <= version < |SchemaVersions(r)| && Parse(SchemaVersions(r)[version]) == t
    requires TwoPass(t, AsArray(r, version)) == Success(body)
    ensures RequestBytes(r, version) == Success(body)
  {
  }

  // ------------------------------------------------------------ frames

  /** Channel::sendMessage's headers: the request's api key, its highest version, the correlation id and client. */
  function HeadersFor(r: Request, correlation: PhpInt, client: seq<Byte>): RequestHeaders {
    RequestHeaders(ApiKey(r), HighestSupportedVersion(r), correlation, client, ResponseClassOf(r))
  }

  /** The frame sendMessage writes: int32 length of header and body, the header, the body. */
  function Frame(h: RequestHeaders, r: Request): Result<seq<Byte>> {
    var header :- HeaderBytes(h);
    var body :- RequestBytes(r, h.apiVersion);
    FrameOf(header, body)
  }

  /** A header and a body behind their int32 total length. */
  function FrameOf(header: seq<Byte>, body: seq<Byte>): Result<seq<Byte>> {
    var length :- PutNumber(SignedInt, |header| + |body|, 4);
    Success(length + header + body)
  }

  /** A frame's int32 prefix counts exactly the bytes that follow it. */
  lemma FrameLengthPrefix(h: RequestHeaders, r: Request)
    requires Frame(h, r).Success?
    ensures |Frame(h, r).value| >= 4
    ensures TakeNumber(SignedInt, Frame(h, r).value, 0) == Success((|Frame(h, r).value| - 4, 4))
  {
    FrameOfLengthPrefix(HeaderBytes(h).value, RequestBytes(r, h.apiVersion).value);
  }

  lemma FrameOfLengthPrefix(header: seq<Byte>, body: seq<Byte>)
    requires FrameOf(header, body).Success?
    ensures |FrameOf(header, body).value| >= 4
    ensures TakeNumber(SignedInt, FrameOf(header, body).value, 0) == Success((|FrameOf(header, body).value| - 4, 4))
  {
    var f := FrameOf(header, body).value;
    var length := PutNumber(SignedInt, |header| + |body|, 4).value;
    assert f[0..4] == length;
    NumberRoundTrip(SignedInt, |header| + |body|, 4, f, 0);
  }

  /** A byte-sized value in two bytes: a zero byte, then the value. */
  lemma SmallPack2(v: int)
    requires 0 <= v < 256
    ensures Pack(v, 2) == [0, v]
  {
    Pow256Widths();
    assert v % Pow256(2) == v;
  }

  /** A byte-sized value in four bytes: three zero bytes, then the value. */
  lemma SmallPack4(v: int)
    requires 0 <= v < 256
    ensures Pack(v, 4) == [0, 0, 0, v]
  {
    Pow256Widths();
    assert v % Pow256(4) == v;
  }

  /** An ApiVersions request, correlation 1, client "t": the header alone, behind its length 11. */
  lemma ApiVersionsFrame()
    ensures Frame(HeadersFor(ApiVersionsRequest, 1, [0x74]), ApiVersionsRequest)
      == Success([0, 0, 0, 11, 0, 18, 0, 2, 0, 0, 0, 1, 0, 1, 0x74])
  {
    var h := HeadersFor(ApiVersionsRequest, 1, [0x74]);
    ApiVersionsHeader();
    ApiVersionsBodyEmpty(2);
    ApiVersionsFrameOf();
  }

  lemma ApiVersionsHeader()
    ensures HeaderBytes(HeadersFor(ApiVersionsRequest, 1, [0x74])) == Success([0, 18, 0, 2, 0, 0, 0, 1, 0, 1, 0x74])
  {
    var h := HeadersFor(ApiVersionsRequest, 1, [0x74]);
    assert h == RequestHeaders(18, 2, 1, [0x74], ApiVersionsResponseClass);
    HeaderLayout(h);
    ApiVersionsHeaderJoined();
  }

  lemma ApiVersionsHeaderJoined()
    ensures Pack(18, 2) + Pack(2, 2) + Pack(1, 4) + Pack(|[0x74]|, 2) + [0x74] == [0, 18, 0, 2, 0, 0, 0, 1, 0, 1, 0x74]
  {
    SmallPack2(18);
    SmallPack2(2);
    SmallPack4(1);
    SmallPack2(1);
    HeaderPiecesJoined([0, 18], [0, 2], [0, 0, 0, 1], [0, 1], [0x74]);
  }

  lemma HeaderPiecesJoined(a: seq<Byte>, b: seq<Byte>, c: seq<Byte>, d: seq<Byte>, e: seq<Byte>)
    requires a == [0, 18] && b == [0, 2] && c == [0, 0, 0, 1] && d == [0, 1] && e == [0x74]
    ensures a + b + c + d + e == [0, 18, 0, 2, 0, 0, 0, 1, 0, 1, 0x74]
  {
    assert a + b == [0, 18, 0, 2];
    assert a + b + c == [0, 18, 0, 2, 0, 0, 0, 1];
    assert a + b + c + d == [0, 18, 0, 2, 0, 0, 0, 1, 0, 1];
  }

  lemma ApiVersionsFrameOf()
    ensures FrameOf([0, 18, 0, 2, 0, 0, 0, 1, 0, 1, 0x74], []) == Success([0, 0, 0, 11, 0, 18, 0, 2, 0, 0, 0, 1, 0, 1, 0x74])
  {
    var header: seq<Byte> := [0, 18, 0, 2, 0, 0, 0, 1, 0, 1, 0x74];
    SmallPack4(11);
    assert |header| == 11;
    assert PutNumber(SignedInt, 11, 4) == Success([0, 0, 0, 11]);
    assert [0, 0, 0, 11] + header + [] == [0, 0, 0, 11, 0, 18, 0, 2, 0, 0, 0, 1, 0, 1, 0x74];
  }
}
