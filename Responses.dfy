/**
 * Responses: the correlation check RequestHeaders::parseResponse performs,
 * and Response::parse for MetadataResponse (its per-version schema table,
 * the read through that schema and fromArray).
 */
module Responses {
  import opened Wire
  import opened Errors
  import opened Binary
  import opened Types
  import opened Codec
  import opened CodecLemmas
  import opened CodecOps
  import opened SchemaParser
  import opened Api

  /** MetadataResponse: its error code, the api_versions records as read, and the throttle time. */
  datatype MetadataResponse = MetadataResponse(errorCode: PhpInt, apiVersions: Value, throttleTime: PhpInt)

  /** The record every api_versions item is read as. */
  const API_VERSION_RECORD: seq<Entry> := [
    Entry("api_key", TypeRef(PInt16)),
    Entry("min_version", TypeRef(PInt16)),
    Entry("max_version", TypeRef(PInt16))
  ]

  /** MetadataResponse::SCHEMA_V0 */
  const METADATA_RESPONSE_V0: seq<Entry> := [
    Entry("error_code", TypeRef(PInt16)),
    Entry("api_versions", ItemsDef(Nested(API_VERSION_RECORD), None))
  ]

  /** MetadataResponse::SCHEMA_V1: SCHEMA_V0 with throttle_time_ms appended (the key is new, so `+` appends it). */
  const METADATA_RESPONSE_V1: seq<Entry> := METADATA_RESPONSE_V0 + [Entry("throttle_time_ms", TypeRef(PInt32))]

  /** MetadataResponse::SCHEMA_VERSIONS: version 0 uses SCHEMA_V0, versions 1 and 2 share SCHEMA_V1. */
  const METADATA_RESPONSE_VERSIONS: seq<seq<Entry>> := [METADATA_RESPONSE_V0, METADATA_RESPONSE_V1, METADATA_RESPONSE_V1]

  /** The schema types the two definitions parse to. */
  const API_VERSION_TYPE: Type := Schema([Field("api_key", Int16), Field("min_version", Int16), Field("max_version", Int16)])

  const METADATA_RESPONSE_V0_TYPE: Type :=
    Schema([Field("error_code", Int16), Field("api_versions", ArrayOf(API_VERSION_TYPE, false))])

  const METADATA_RESPONSE_V1_TYPE: Type :=
    Schema([Field("error_code", Int16), Field("api_versions", ArrayOf(API_VERSION_TYPE, false)),
            Field("throttle_time_ms", Int32)])

  /** schemaDefinition of the response class a header names, for `version`. */
  function ResponseDefinition(cls: ResponseClass, version: int): (d: Result<seq<Entry>>)
    ensures cls == ApiVersionsResponseClass ==> d == Failure(ResponseClassNotModelled)
    ensures cls == MetadataResponseClass ==> (d.Success? <==> 0 <= version <= 2)
    ensures cls == MetadataResponseClass && d.Failure? ==> d.error == UnknownSchemaVersion(version)
  {
    match cls
    case ApiVersionsResponseClass => Failure(ResponseClassNotModelled)
    case MetadataResponseClass =>
      if 0 <= version < |METADATA_RESPONSE_VERSIONS| then Success(METADATA_RESPONSE_VERSIONS[version])
      else Failure(UnknownSchemaVersion(version))
  }

  /** The Metadata response definitions parse to the documented records; v1 and v2 add the throttle time. */
  lemma MetadataResponseSchemas(version: int)
    requires 0 <= version <= 2
    ensures Parse(ResponseDefinition(MetadataResponseClass, version).value)
      == if version == 0 then METADATA_RESPONSE_V0_TYPE else METADATA_RESPONSE_V1_TYPE
    ensures version > 0 ==> METADATA_RESPONSE_V1_TYPE.fields == METADATA_RESPONSE_V0_TYPE.fields + [Field("throttle_time_ms", Int32)]
  {
    assert Parse(API_VERSION_RECORD) == API_VERSION_TYPE;
  }

  /**
   * MetadataResponse::fromArray: error_code and api_versions are handed to
   * typed constructor parameters (an int and an array, otherwise a
   * TypeError); a missing or null throttle_time_ms becomes 0.
   */
  function FromArray(data: map<string, Value>): (r: Result<MetadataResponse>)
    ensures r.Success? <==>
      Lookup(data, "error_code").VInt? && HasKind(Lookup(data, "api_versions"), IsArray)
      && (Lookup(data, "throttle_time_ms").VNull? || Lookup(data, "throttle_time_ms").VInt?)
    ensures r.Success? ==> r.value.errorCode == Lookup(data, "error_code").i
    ensures r.Success? ==> r.value.apiVersions == Lookup(data, "api_versions")
    ensures r.Success? && "throttle_time_ms" !in data ==> r.value.throttleTime == 0
    ensures r.Success? && Lookup(data, "throttle_time_ms").VInt? ==> r.value.throttleTime == data["throttle_time_ms"].i
    ensures r.Failure? ==> r.error == TypeMismatch
  {
    var code := Lookup(data, "error_code");
    var versions := Lookup(data, "api_versions");
    var throttle := Lookup(data, "throttle_time_ms");
    if !code.VInt? || !HasKind(versions, IsArray) then Failure(TypeMismatch)
    else if throttle.VNull? then Success(MetadataResponse(code.i, versions, 0))
    else if throttle.VInt? then Success(MetadataResponse(code.i, versions, throttle.i))
    else Failure(TypeMismatch)
  }

  /** Response::parse on a message holding `s` with its cursor at `p`: the response and the cursor after it. */
  function ParseBody(cls: ResponseClass, version: int, s: seq<Byte>, p: nat): (r: Result<(MetadataResponse, nat)>)
    requires p <= |s|
    ensures r.Success? ==> p <= r.value.1 <= |s|
  {
    var d :- ResponseDefinition(cls, version);
    var read :- Decode(Parse(d), s, p);
    var response :- FromArray(Entries(read.0));
    Success((response, read.1))
  }

  /**
   * RequestHeaders::parseResponse on a message holding `s`: the int32
   * correlation id first, which must be the one the request carried, then
   * the response class's parse at the request's version.
   */
  function ParseResponse(h: RequestHeaders, s: seq<Byte>): (r: Result<MetadataResponse>)
    ensures |s| < 4 ==> r == Failure(NotEnoughBytesAllocated(4))
    ensures TakeNumber(SignedInt, s, 0).Success? && TakeNumber(SignedInt, s, 0).value.0 != h.correlationId ==>
      r == Failure(CorrelationMismatch(h.correlationId, TakeNumber(SignedInt, s, 0).value.0))
    ensures r.Success? ==> |s| >= 4 && TakeNumber(SignedInt, s, 0).value.0 == h.correlationId
  {
    var correlation :- TakeNumber(SignedInt, s, 0);
    if correlation.0 != h.correlationId then Failure(CorrelationMismatch(h.correlationId, correlation.0))
    else
      var body :- ParseBody(h.responseClass, h.apiVersion, s, correlation.1);
      Success(body.0)
  }

  /** Response::parse, advancing the message's cursor over what the schema reads. */
  method ParseBodyFrom(cls: ResponseClass, version: int, m: Message) returns (r: Result<MetadataResponse>)
    requires m.Valid()
    modifies m`position
    ensures m.Valid()
    ensures var b := ParseBody(cls, version, m.bytes, old(m.position));
      (b.Success? ==> r == Success(b.value.0) && m.position == b.value.1) && (b.Failure? ==> r == Failure(b.error))
  {
    var d := ResponseDefinition(cls, version);
    if d.Failure? {
      return Failure(d.error);
    }
    var read := Read(Parse(d.value), m);
    if read.Failure? {
      return Failure(read.error);
    }
    var response := FromArray(Entries(read.value));
    if response.Failure? {
      return Failure(response.error);
    }
    r := Success(response.value);
  }

  /** RequestHeaders::parseResponse on a fresh message over a response payload. */
  method ParseResponseFrom(h: RequestHeaders, m: Message) returns (r: Result<MetadataResponse>)
    requires m.Valid() && m.position == 0
    modifies m`position
    ensures m.Valid()
    ensures r == ParseResponse(h, m.bytes)
  {
    var correlation := m.ReadInt();
    if correlation.Failure? {
      return Failure(correlation.error);
    }
    if correlation.value != h.correlationId {
      return Failure(CorrelationMismatch(h.correlationId, correlation.value));
    }
    r := ParseBodyFrom(h.responseClass, h.apiVersion, m);
  }

  // ------------------------------------------------------------ properties

  /** The data map a broker's MetadataResponse of `version` carries. */
  function ResponseData(response: MetadataResponse, version: int): Value {
    if version == 0 then
      VMap(map["error_code" := VInt(response.errorCode), "api_versions" := response.apiVersions])
    else
      VMap(map["error_code" := VInt(response.errorCode), "api_versions" := response.apiVersions,
               "throttle_time_ms" := VInt(response.throttleTime)])
  }

  /**
   * A response written with a version's schema behind the matching
   * correlation id parses back: the error code as written, the records as
   * a read gives them back, and the throttle time as written from v1 on and
   * 0 in v0, which has no such field.
   */
  lemma MetadataResponseRoundTrip(h: RequestHeaders, response: MetadataResponse, room: int, body: seq<Byte>)
    requires h.responseClass == MetadataResponseClass && 0 <= h.apiVersion <= 2
    requires INT_MIN <= h.correlationId <= INT_MAX && response.apiVersions.VList?
    requires Encode(Parse(METADATA_RESPONSE_VERSIONS[h.apiVersion]), ResponseData(response, h.apiVersion), room) == Success(body)
    ensures ParseResponse(h, Pack(h.correlationId, 4) + body) == Success(MetadataResponse(
      response.errorCode,
      Norm(ArrayOf(API_VERSION_TYPE, false), response.apiVersions),
      if h.apiVersion == 0 then 0 else response.throttleTime))
  {
    var t := Parse(METADATA_RESPONSE_VERSIONS[h.apiVersion]);
    MetadataResponseSchemas(h.apiVersion);
    var s := Pack(h.correlationId, 4) + body;
    assert s[0..4] == Pack(h.correlationId, 4);
    NumberRoundTrip(SignedInt, h.correlationId, 4, s, 0);
    assert s[4..4 + |body|] == body;
    ReadAfterWrite(t, ResponseData(response, h.apiVersion), room, s, 4);
    ResponseFieldsReadBack(response, h.apiVersion);
  }

  /** The data map a read of the response data normalises to, field by field. */
  lemma ResponseFieldsNormed(response: MetadataResponse, version: int)
    requires 0 <= version <= 2 && response.apiVersions.VList?
    ensures var t := if version == 0 then METADATA_RESPONSE_V0_TYPE else METADATA_RESPONSE_V1_TYPE;
      var versions := Norm(ArrayOf(API_VERSION_TYPE, false), response.apiVersions);
      Entries(Norm(t, ResponseData(response, version))) ==
        if version == 0 then map["error_code" := VInt(response.errorCode), "api_versions" := versions]
        else map["error_code" := VInt(response.errorCode), "api_versions" := versions,
                 "throttle_time_ms" := VInt(response.throttleTime)]
  {
    var t := if version == 0 then METADATA_RESPONSE_V0_TYPE else METADATA_RESPONSE_V1_TYPE;
    var data := Entries(ResponseData(response, version));
    var versions := Norm(ArrayOf(API_VERSION_TYPE, false), response.apiVersions);
    assert NormField(t.fields[0], data) == VInt(response.errorCode);
    assert NormField(t.fields[1], data) == versions;
    assert NormFields(t, 1, data) == map["error_code" := VInt(response.errorCode)];
    assert NormFields(t, 2, data) == map["error_code" := VInt(response.errorCode), "api_versions" := versions];
    if version != 0 {
      assert NormField(t.fields[2], data) == VInt(response.throttleTime);
    }
  }

  /** What a read gives back for each field of the response data. */
  lemma ResponseFieldsReadBack(response: MetadataResponse, version: int)
    requires 0 <= version <= 2 && response.apiVersions.VList?
    ensures var t := if version == 0 then METADATA_RESPONSE_V0_TYPE else METADATA_RESPONSE_V1_TYPE;
      FromArray(Entries(Norm(t, ResponseData(response, version)))) ==
        Success(MetadataResponse(response.errorCode, Norm(ArrayOf(API_VERSION_TYPE, false), response.apiVersions),
                                 if version == 0 then 0 else response.throttleTime))
  {
    ResponseFieldsNormed(response, version);
  }

  /**
   * A Metadata request goes out at its highest version, 7, and the
   * response table stops at 2: once the correlation id matches, parsing the
   * answer fails whatever the broker sent.
   */
  lemma MetadataReplyVersionUnknown(r: Request, correlation: PhpInt, client: seq<Byte>, s: seq<Byte>)
    requires r.MetadataRequest?
    requires TakeNumber(SignedInt, s, 0) == Success((correlation as int, 4))
    ensures ParseResponse(HeadersFor(r, correlation, client), s) == Failure(UnknownSchemaVersion(7))
  {
  }

  /** An ApiVersions reply is not parsed by this model once its correlation id matches. */
  lemma ApiVersionsReplyNotModelled(correlation: PhpInt, client: seq<Byte>, s: seq<Byte>)
    requires TakeNumber(SignedInt, s, 0) == Success((correlation as int, 4))
    ensures ParseResponse(HeadersFor(ApiVersionsRequest, correlation, client), s) == Failure(ResponseClassNotModelled)
  {
  }
}
