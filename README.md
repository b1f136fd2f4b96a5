# Kafka wire codec and channel, modelled in Dafny

This project models the core of `lcobucci/kafka`, a PHP client for Apache Kafka, and proves properties of that model.

The core has four parts:

- **The binary message.** This is a fixed-length byte string with a cursor. Typed, big-endian writers and readers work on it: int8, int16, int32, unsigned int32 and int64. Writers check the value's range and the space left. Reads turn two's complement back into signed values. This is the `Message` class in `Binary.dfy`; `Wire.dfy` holds the byte arithmetic.
- **The schema codec.** Each protocol type (Boolean, the integers, nullable and non-nullable strings and bytes, `ArrayOf`, `Schema`) and each schema `Field` can do four things:
  - write a value into a message;
  - read a value back;
  - compute the size a value needs;
  - validate a value.

  `Parser` compiles a declarative definition into a schema. Each operation is specified once as a function (`Codec.dfy`, `SchemaParser.dfy`). The PHP loops are methods proved equal to those functions (`CodecOps.dfy`). The properties that relate the operations are proved in `CodecLemmas.dfy`:
  - `sizeOf` predicts exactly what `write` emits;
  - `read` gives back what `write` wrote;
  - a validated value always writes;
  - a read ignores any bytes after the ones it consumes.
- **Requests and responses** (`Api.dfy`, `Responses.dfy`):
  - the two-pass encoding (size, allocate, write) shared by `Request::toBuffer` and `RequestHeaders::toBuffer`;
  - the request header layout;
  - the per-version schema tables of `ApiVersionsRequest`, `MetadataRequest` and `MetadataResponse`;
  - `asArray`;
  - the length-prefixed frame;
  - the correlation check that `RequestHeaders::parseResponse` performs before `Response::parse`.
- **Cluster bootstrap and the channel:**
  - `Cluster::bootstrap` (`Clusters.dfy`) splits a comma-separated server list into nodes, using PHP's `explode`, `(int)` and `(string)`, all modelled.
  - `Channel` (`Channels.dfy`) is the per-node queue machine:
    - `send` queues a request;
    - each `processQueue` tick writes up to 15 queued requests as frames and moves them into the in-flight FIFO;
    - each `data` event answers the oldest in-flight request.

    The event loop, the connector and the socket are replaced by explicit event methods. Counters stand for the callbacks those collaborators hold (pending connects, retry timers, future ticks). A log records the frames written.

Errors are values. Each PHP exception the core raises is a constructor of `Errors.Error`:
- `NotEnoughBytesAllocated`;
- `ValueOutOfAllowedRange`;
- the `SchemaValidationFailure` kinds.

Each operation returns a `Result` or an `Outcome` carrying the first exception the PHP would raise, in the order the PHP raises them, except as listed under "## Left out".

Three behaviours of the code deserve a note, because they are easy to misread:

- **When `processQueue` re-arms itself.** It re-arms after every pass that found a non-empty queue, even when that pass emptied the queue. The chain stops only when a tick finds the queue empty (src/Client/Channel.php:95-97, 109). `Channels.Channel.ProcessQueue` states this.
- **Where the frame's length goes.** `sendMessage` writes the 4-byte length first, then the header bytes, then the body bytes (src/Client/Channel.php:125-129). `Api.ApiVersionsFrame` proves this byte order for the ApiVersions request.
- **How a Metadata reply is parsed.** `MetadataRequest::highestSupportedVersion` is 7, but `MetadataResponse::SCHEMA_VERSIONS` has only the entries 0 to 2, whose fields (`api_versions` records) are those of an ApiVersions response. Once the correlation id matches, every Metadata reply therefore fails to parse. `Responses.MetadataReplyVersionUnknown` proves this. The model keeps the table as written, because no other Metadata response schema is in the source.

## Model

| member | source | states |
|---|---|---|
| Wire.Pack | src/Protocol/Message.php:173-177 | pack('n'/'N'/'c'/'J') emits exactly `width` bytes |
| Wire.FromBigEndian | src/Protocol/Message.php:184-187 | unpack of `n` bytes is an unsigned value below 256^n |
| Wire.PackValue | src/Protocol/Message.php:207-211 | what pack keeps of a value is its remainder modulo 256^width (two's complement for negatives) |
| Wire.PackSignedRoundTrip | src/Protocol/Message.php:184-199 | unpack followed by convertToSigned gives back every value of the width's signed range |
| Wire.PackUnsignedRoundTrip | src/Protocol/Message.php:229-243 | writeUnsignedInt followed by readUnsignedInt gives back every value in [0, 2^32) |
| Binary.PutNumber | src/Protocol/Message.php:139-155 | a typed write succeeds only for a value in range (guardBounds first) with the width's bytes of room; the 64-bit writer has no guard |
| Binary.TakeNumber | src/Protocol/Message.php:162-199 | a typed read fails exactly when fewer than the width's bytes remain; otherwise it returns a value in the format's range and advances by the width |
| Binary.NumberRoundTrip | src/Protocol/Message.php:173-187 | every typed read of the bytes a typed write emitted gives back the written value and the position after it |
| Binary.SignedReadsBack | src/Protocol/Message.php:192-199 | convertToSigned with each format's constants inverts its packing over the whole signed range |
| Binary.Splice | src/Protocol/Message.php:111-117 | substr_replace over equal lengths keeps the message length |
| Binary.SpliceContents | src/Protocol/Message.php:111-117 | a write puts its bytes at the cursor and leaves the bytes before and after untouched |
| Binary.SpliceTwice | src/Protocol/Message.php:111-117 | two adjacent writes equal one write of the concatenation |
| Binary.Message.Allocate | src/Protocol/Message.php:52-55 | n zero bytes, cursor at 0 |
| Binary.Message.FromContent | src/Protocol/Message.php:60-63 | the given bytes, cursor at 0, length their count |
| Binary.Message.Get | tests/Unit/Protocol/BufferTest.php:104-147 | the requested bytes if they exist, otherwise NotEnoughBytesAllocated of the requested length; the cursor does not move (the length is always given: the default length of `get` is not modelled) |
| Binary.Message.Reset | src/Protocol/Message.php:84-87 | the cursor returns to 0 and nothing else may change |
| Binary.Message.NextIndex | src/Protocol/Message.php:94-104 | the old position and a cursor k bytes on, or NotEnoughBytesAllocated(k) with the cursor unmoved |
| Binary.Message.Write | src/Protocol/Message.php:111-117 | the bytes are spliced in at the cursor and the cursor moves past them, or NotEnoughBytesAllocated with nothing changed |
| Binary.Message.Read | src/Protocol/Message.php:126-131 | the k bytes at the cursor and a cursor past them, or NotEnoughBytesAllocated with the cursor unmoved |
| Binary.TakeBytes | src/Protocol/Message.php:94-131 | the k bytes at p, the rest of the message following them, or NotEnoughBytesAllocated(k) exactly when fewer than k bytes remain |
| Binary.Message.WriteNumber | src/Protocol/Message.php:139-155 | the result is PutNumber's; on success the packed bytes sit at the old cursor, which moves by the width; on failure nothing changes |
| Binary.Message.ReadNumber | src/Protocol/Message.php:162-199 | the result and the new cursor are TakeNumber's |
| Binary.Message.WriteByte | src/Protocol/Message.php:139-143 | range [-128, 127], then one byte at the cursor |
| Binary.Message.ReadByte | src/Protocol/Message.php:162-165 | a signed byte from the cursor, or NotEnoughBytesAllocated |
| Binary.Message.WriteShort | src/Protocol/Message.php:173-177 | range [-32768, 32767], then two big-endian bytes |
| Binary.Message.ReadShort | src/Protocol/Message.php:184-187 | two bytes read as a signed int16 |
| Binary.Message.WriteInt | src/Protocol/Message.php:207-211 | range [-2^31, 2^31 - 1], then four big-endian bytes |
| Binary.Message.ReadInt | src/Protocol/Message.php:218-221 | four bytes read as a signed int32 |
| Binary.Message.WriteUnsignedInt | src/Protocol/Message.php:229-233 | range [0, 2^32 - 1], then four big-endian bytes |
| Binary.Message.ReadUnsignedInt | src/Protocol/Message.php:240-243 | four bytes read unsigned |
| Binary.Message.WriteLong | src/Protocol/Message.php:253-256 | any PHP int, then eight big-endian bytes in two's complement |
| Binary.Message.ReadLong | src/Protocol/Message.php:265-268 | eight bytes read as a signed int64 |
| Binary.LongBounds | tests/Unit/Protocol/MessageTest.php:574-582 | the int64 bounds encode to 8000000000000000 and 7fffffffffffffff |
| Binary.BoundaryEncodings | tests/Unit/Protocol/MessageTest.php:137-582 | each writer's range bounds encode to the hex strings the message tests expect (807f, 80007fff, 800000007fffffff, ffffffff, 80000000000000007fffffffffffffff) |
| Types.GuardAgainstNull | tests/Unit/Protocol/TypeTest.php:34-56 | passes exactly for non-null values, otherwise nullValue(expected) |
| Types.GuardType | tests/Unit/Protocol/TypeTest.php:63-98 | passes exactly for null or a value of the kind, otherwise incorrectType |
| Types.GuardClass | tests/Unit/Protocol/TypeTest.php:105-140 | passes exactly for null, non-objects and instances of the class, otherwise incorrectClass |
| Types.GuardRange | tests/Unit/Protocol/TypeTest.php:147-169 | passes exactly for non-ints and ints within [lower, upper], otherwise incorrectRange |
| Types.GuardLength | tests/Unit/Protocol/TypeTest.php:176-211 | passes exactly for null and strings no longer than the maximum, otherwise incorrectLength |
| Codec.ExtractValue | src/Protocol/Schema/Field.php:79-86 | a present non-null entry is returned; a null or missing entry fails with missingField exactly when the type is not nullable |
| Codec.EncodeBlob | src/Protocol/Type/NonNullableString.php:21-25 | a successful length-prefixed write takes the prefix's width plus the data's length, within the room |
| Codec.SizeOf | src/Protocol/Type.php:29-34 | a computed size is never negative |
| Codec.FieldSize | src/Protocol/Schema/Field.php:55-58 | a field's computed size is never negative |
| Codec.Decode | src/Protocol/Type.php:20-27 | a successful read leaves the cursor between its start and the end of the message |
| Codec.DecodeItems | src/Protocol/Type/ArrayOf.php:50-56 | a successful read of n items yields exactly n values |
| SchemaParser.Parse | src/Protocol/Schema/Parser.php:15-18 | a schema with one field per definition entry, named as the entries, in order |
| SchemaParser.ParseFields | src/Protocol/Schema/Parser.php:25-30 | field i is entry i's name with entry i's parsed type |
| SchemaParser.ParseUnparse | src/Protocol/Schema/Parser.php:33-47 | every type a definition can describe (no nested schema with a repeated field name or a field named `_items`), records and arrays included, is what some well-formed definition parses to, and that definition is well-formed |
| SchemaParser.ParseUnparseFields | src/Protocol/Schema/Parser.php:25-30 | every field list with distinct names whose types a definition can describe is what some well-formed definition map with distinct keys parses to |
| SchemaParser.UnparseParse | src/Protocol/Schema/Parser.php:33-47 | a well-formed definition (no nested map repeating a key or holding an `_items` entry) parses to a type a definition can describe, and parsing forgets only omitted `_nullable` flags (it reads them as false) |
| SchemaParser.UnparseParseEntries | src/Protocol/Schema/Parser.php:25-30 | the same, for a whole map of well-formed definitions with distinct keys, whose fields then have distinct names |
| SchemaParser.ParseSameExactlyWhenNormalSame | src/Protocol/Schema/Parser.php:33-47 | two well-formed definitions parse to the same type if and only if they agree once `_nullable` defaults are written out |
| SchemaParser.NormalIsParsedAlike | src/Protocol/Schema/Parser.php:42 | writing out `_nullable => false` changes nothing about the parsed type |
| SchemaParser.NormalEntriesParsedAlike | src/Protocol/Schema/Parser.php:25-30 | the same, for a whole definition map |
| SchemaParser.ParsedNullability | src/Protocol/Schema/Parser.php:33-47 | for a well-formed definition: a class name gives a primitive type, a map holding `_items` an array that is nullable exactly when `_nullable` is true, any other map a non-nullable nested schema |
| SchemaParser.EmptyDefinition | src/Protocol/API/ApiVersionsRequest.php:16-18 | an empty definition is an empty schema that sizes any array to 0 and writes nothing |
| CodecLemmas.SizeOfMatchesWrite | src/Protocol/Type.php:29-34 | whenever a write succeeds, sizeOf returned exactly the number of bytes written, and those bytes fit the room |
| CodecLemmas.SizeOfMatchesWriteItems | src/Protocol/Type/ArrayOf.php:59-72 | the items' sizes sum to the bytes their writes take |
| CodecLemmas.SizeOfMatchesWriteFields | src/Protocol/Schema.php:49-60 | the fields' sizes sum to the bytes their writes take |
| CodecLemmas.BlobRoundTrip | src/Protocol/Type/NonNullableBytes.php:20-36 | a length prefix and its data read back as that length and that data |
| CodecLemmas.ReadAfterWrite | src/Protocol/Type.php:11-27 | for every type, reading the bytes a write produced returns the value as the read gives it (Norm) and a cursor just past those bytes |
| CodecLemmas.ReadAfterWriteNullArray | src/Protocol/Type/ArrayOf.php:22-48 | a null array written as -1 reads back as null |
| CodecLemmas.ReadAfterWriteRecord | src/Protocol/Schema.php:24-47 | a record reads back as the structure of exactly its fields |
| CodecLemmas.ReadAfterWriteList | src/Protocol/Type/ArrayOf.php:22-57 | a non-null array reads back as its count and then its items |
| CodecLemmas.ReadAfterWriteNumber | src/Protocol/Type/Int8.php:20-28 | each integer type and Boolean read back what they wrote |
| CodecLemmas.ReadAfterWriteInteger | src/Protocol/Type/Int32.php:20-28 | an integer reads back unchanged, width bytes later |
| CodecLemmas.ReadAfterWriteBoolean | src/Protocol/Type/Boolean.php:20-28 | a boolean reads back as `value === true` |
| CodecLemmas.ReadAfterWriteString | src/Protocol/Type/NonNullableString.php:21-30 | a string reads back unchanged after its int16 length |
| CodecLemmas.ReadAfterWriteNullableString | src/Protocol/Type/NullableString.php:24-45 | a string reads back unchanged, and null (length -1) reads back as null |
| CodecLemmas.ReadAfterWriteBytes | src/Protocol/Type/NonNullableBytes.php:20-36 | a buffer's remaining bytes read back as a fresh buffer over them |
| CodecLemmas.ReadAfterWriteNullableBytes | src/Protocol/Type/NullableBytes.php:19-43 | the same, and a non-buffer (written as -1) reads back as null |
| CodecLemmas.ReadAfterWriteItems | src/Protocol/Type/ArrayOf.php:32-34 | n written items read back as n items, each as its type reads it, in order |
| CodecLemmas.ReadAfterWriteFields | src/Protocol/Schema.php:28-30 | written fields read back, in schema order, under their names |
| CodecLemmas.ReadAfterWriteField | src/Protocol/Schema/Field.php:33-46 | Field::readFrom after Field::writeTo gives back the extracted value as its type reads it |
| CodecLemmas.ValidValuesWrite | src/Protocol/Type.php:29-41 | a value that passes validate (with array counts and buffer lengths fitting int32) has a size and writes into any room of that size |
| CodecLemmas.ValidPrimitivesWrite | src/Protocol/Type/Int16.php:20-49 | the same for the primitive types, whose validate includes the range and length checks the writers repeat |
| CodecLemmas.ValidItemsWrite | src/Protocol/Type/ArrayOf.php:79-94 | valid items have a size and write into that much room |
| CodecLemmas.ValidItemWrite | src/Protocol/Type/ArrayOf.php:91-93 | one valid item has a size and writes into that much room |
| CodecLemmas.ValidFieldsWrite | src/Protocol/Schema.php:62-70 | a structure whose fields validate has a size and writes into that much room |
| CodecLemmas.ValidFieldWrite | src/Protocol/Schema/Field.php:67-70 | a field that validates has a size and writes into that much room |
| CodecLemmas.ValidValuesReadBackVerbatim | src/Protocol/Type.php:18-27 | for types without buffers or nested schemas, a valid value reads back exactly as written |
| CodecLemmas.ValidItemsReadBackVerbatim | src/Protocol/Type/ArrayOf.php:42-57 | the same for a list of such items |
| CodecLemmas.TakeIgnoresTrailing | src/Protocol/Message.php:126-131 | read depends only on the bytes it takes |
| CodecLemmas.TakeNumberIgnoresTrailing | src/Protocol/Message.php:218-221 | a typed read depends only on the bytes it takes |
| CodecLemmas.ReadIgnoresTrailing | src/Protocol/Type.php:20-27 | appending bytes after a message leaves every type's read, result and cursor alike, unchanged |
| CodecLemmas.ItemsIgnoreTrailing | src/Protocol/Type/ArrayOf.php:52-54 | the same for reading n items |
| CodecLemmas.FieldsIgnoreTrailing | src/Protocol/Schema.php:42-44 | the same for reading a schema's fields |
| CodecOps.ItemsWriteFailurePersists | src/Protocol/Type/ArrayOf.php:32-34 | once an item's write raises, the array write raises that same exception |
| CodecOps.FieldsWriteFailurePersists | src/Protocol/Schema.php:28-30 | once a field's write raises, the schema write raises that same exception |
| CodecOps.ItemsReadFailurePersists | src/Protocol/Type/ArrayOf.php:52-54 | once an item's read raises, reading more items raises the same |
| CodecOps.FieldsReadFailurePersists | src/Protocol/Schema.php:42-44 | once a field's read raises, reading more fields raises the same |
| CodecOps.ItemsSizeFailurePersists | src/Protocol/Type/ArrayOf.php:67-69 | once an item's size raises, the array's size raises the same |
| CodecOps.FieldsSizeFailurePersists | src/Protocol/Schema.php:55-57 | once a field's size raises, the schema's size raises the same |
| CodecOps.WriteBlob | src/Protocol/Type/NonNullableString.php:21-25 | writeShort/writeInt of the length, then write of the bytes: the outcome EncodeBlob describes, the bytes spliced at the cursor, the cursor moved past them |
| CodecOps.Write | src/Protocol/Type.php:11-18 | Type::write leaves in the message exactly what Encode describes: its outcome, its bytes at the old cursor, the cursor past them |
| CodecOps.WriteNumberType | src/Protocol/Type/Int16.php:20-23 | the integer types and Boolean write as Encode describes |
| CodecOps.WriteBlobType | src/Protocol/Type/NullableString.php:24-34 | the string and bytes types write as Encode describes, -1 for null in the nullable ones |
| CodecOps.WriteArray | src/Protocol/Type/ArrayOf.php:22-35 | ArrayOf::write: -1 for null, otherwise the count and every item, as Encode describes |
| CodecOps.WriteItems | src/Protocol/Type/ArrayOf.php:32-34 | the item loop writes exactly EncodeItems, stopping at the first exception |
| CodecOps.WriteSchema | src/Protocol/Schema.php:24-31 | Schema::write as Encode describes (a non-array is a type error) |
| CodecOps.WriteFields | src/Protocol/Schema.php:28-30 | the field loop writes exactly EncodeFields, stopping at the first exception |
| CodecOps.WriteTo | src/Protocol/Schema/Field.php:33-36 | Field::writeTo as EncodeField describes |
| CodecOps.ReadBlob | src/Protocol/Type/NullableBytes.php:34-43 | a length, then that many bytes; a negative length is null where allowed and an error otherwise |
| CodecOps.Read | src/Protocol/Type.php:20-27 | Type::read returns what Decode describes and leaves the cursor where Decode ends |
| CodecOps.ReadNumberType | src/Protocol/Type/Int16.php:28-31 | the integer types and Boolean read as Decode describes |
| CodecOps.ReadBlobType | src/Protocol/Type/NullableString.php:36-45 | the string and bytes types read as Decode describes |
| CodecOps.ReadArray | src/Protocol/Type/ArrayOf.php:42-57 | ArrayOf::read: null for a negative count, otherwise exactly count items |
| CodecOps.ReadItems | src/Protocol/Type/ArrayOf.php:50-56 | the item loop reads exactly DecodeItems |
| CodecOps.ReadSchema | src/Protocol/Schema.php:38-47 | Schema::read: the structure keyed by field name, as Decode describes |
| CodecOps.ReadFrom | src/Protocol/Schema/Field.php:43-46 | Field::readFrom as DecodeField describes |
| CodecOps.ComputeSize | src/Protocol/Type.php:29-34 | each type's sizeOf returns exactly SizeOf |
| CodecOps.ArraySize | src/Protocol/Type/ArrayOf.php:59-72 | 4 for null, otherwise 4 plus the items' sizes accumulated in order: exactly SizeOf |
| CodecOps.SchemaSize | src/Protocol/Schema.php:49-60 | the fields' sizes accumulated in order: exactly SizeOf |
| CodecOps.FieldSizeOf | src/Protocol/Schema/Field.php:55-58 | Field::sizeOf is FieldSize, including the missing-field error |
| Responses.ResponseDefinition | src/Protocol/API/MetadataResponse.php:10-47 | MetadataResponse has definitions exactly for versions 0 to 2, otherwise UnknownSchemaVersion; ApiVersionsResponse is not modelled |
| Responses.MetadataResponseSchemas | src/Protocol/API/MetadataResponse.php:16-26 | the definitions parse to error_code, api_versions records, and from v1 on throttle_time_ms appended |
| Responses.FromArray | src/Protocol/API/MetadataResponse.php:34-41 | succeeds exactly when error_code is an int, api_versions an array and throttle_time_ms an int or absent; the throttle time then defaults to 0 |
| Responses.ParseBody | src/Protocol/API/Response.php:11-16 | Response::parse: a successful read stays within the message |
| Responses.ParseResponse | src/Protocol/API/RequestHeaders.php:49-55 | under 4 bytes fails; a correlation id other than the request's fails with CorrelationMismatch; success implies the ids match |
| Responses.ParseBodyFrom | src/Protocol/API/Response.php:11-16 | the method returns ParseBody's response and moves the cursor as far as the read did |
| Responses.ParseResponseFrom | src/Protocol/API/RequestHeaders.php:49-55 | the method returns exactly ParseResponse's result |
| Responses.MetadataResponseRoundTrip | src/Protocol/API/RequestHeaders.php:49-55 | a response written with a version's schema behind the matching correlation id parses back: error code, records as read, throttle time as written (0 in v0) |
| Responses.MetadataReplyVersionUnknown | src/Protocol/API/MetadataRequest.php:37-40 | a Metadata request goes out at version 7, so its reply, once the correlation id matches, fails with UnknownSchemaVersion(7) |
| Responses.ApiVersionsReplyNotModelled | src/Protocol/API/ApiVersionsRequest.php:42-45 | an ApiVersions reply with a matching correlation id reaches the unmodelled response class |
| Clusters.Split | src/Cluster.php:25 | explode returns at least one piece |
| Clusters.SplitPiecesLackSeparator | src/Cluster.php:25 | no piece contains the separator |
| Clusters.JoinSplit | src/Cluster.php:25 | implode of explode's pieces is the original string |
| Clusters.SplitJoin | src/Cluster.php:25 | explode of pieces free of the separator, imploded, gives those pieces back |
| Clusters.Saturate | src/Cluster.php:23 | the (int) cast of an out-of-range numeric string saturates at PHP_INT_MIN/MAX |
| Clusters.NatToString | src/Cluster.php:23 | the (string) cast of a non-negative int is a non-empty run of digits |
| Clusters.NatToStringRoundTrip | src/Cluster.php:23 | the decimal text of a non-negative int casts back to it |
| Clusters.IntToStringRoundTrip | src/Cluster.php:23 | (int)(string)$x == $x for every PHP int |
| Clusters.NatToStringInjective | src/Cluster.php:23 | distinct numbers have distinct decimal text |
| Clusters.Bootstrap | src/Cluster.php:16-29 | no cluster id; one node per comma-separated piece, in order, node i built from piece i with id "-(i+1)" |
| Clusters.NodeIds | src/Cluster.php:18-23 | the ids are "-1", "-2", ..., they read back as -(i+1), and no two positions share one |
| Clusters.MissingPort | src/Cluster.php:21-23 | a server without a colon is all host, with port 0 |
| Clusters.ExtraPiecesIgnored | src/Cluster.php:21 | anything after a second colon is ignored |
| Clusters.AddressRoundTrip | src/Cluster.php:21-23 | the `host:port` address a channel dials parses back to that host and port |
| Clusters.BootstrapRoundTrip | src/Cluster.php:16-29 | bootstrapping from the addresses of hosts and ports gives back exactly those hosts and ports, in order, with positional ids and no rack |
| Channels.Dispatch | src/Client/Channel.php:112-132 | sendMessage writes the frame of the request's headers and body only on a connection; without one it raises |
| Channels.PassOverShape | src/Client/Channel.php:101-107 | a pass handles min(15, count) entries or stops at the first exception; the entries after it stay queued and the failing one is lost |
| Channels.PassOverContents | src/Client/Channel.php:101-107 | handled entries move in flight in queue order, each with the frame its sendMessage wrote |
| Channels.PassMeaning | src/Client/Channel.php:93-110 | a processQueue pass moves and writes, in order, the entries before the first failing sendMessage, at most 15, and leaves the rest queued |
| Channels.SendMessage | src/Client/Channel.php:112-132 | the method's result is Dispatch's |
| Channels.FrameBytes | src/Client/Channel.php:114-129 | the header buffer, the body buffer at the header's version and the length buffer give exactly Frame |
| Channels.LengthPrefixed | src/Client/Channel.php:125-129 | writeInt of the two lengths' sum, then both buffers' bytes: exactly FrameOf |
| Channels.FrameSteps | src/Client/Channel.php:122-129 | the frame fails with the header's error, else the body's, else the length prefix's; otherwise it is prefix, header, body |
| Channels.FrameOfSteps | src/Client/Channel.php:125-126 | the length prefix is the one step of the framing that can fail |
| Channels.ReadReply | src/Client/Channel.php:140-143 | fromContent, readInt, read of that many bytes, parseResponse: exactly Reply, including the shortened payload of a negative length |
| Channels.ShortenedPayload | src/Protocol/Message.php:94-131 | for a negative length read at cursor 4, the payload is the bytes after the prefix without their last -length bytes, or empty once that cut reaches the prefix |
| Channels.NegativePrefixShortens | src/Client/Channel.php:140-143 | a data event whose length prefix is -n is parsed as the bytes after the prefix without their last n, with no exception |
| Channels.QueueAppend | src/Client/Channel.php:50 | queuing an entry appends its handle to the order of unanswered requests |
| Channels.MoveHead | src/Client/Channel.php:102-106 | moving the queue head in flight keeps the order of unanswered requests |
| Channels.DropPendingHead | src/Client/Channel.php:102-105 | a head lost to an exception leaves the other handles in order |
| Channels.DropInFlightHead | src/Client/Channel.php:138 | answering the oldest in-flight entry drops the first handle |
| Channels.ResolveOldest | src/Client/Channel.php:138-143 | resolving the oldest handle leaves the others unresolved and in order |
| Channels.ReplyReadsOneFrame | src/Client/Channel.php:140-143 | a data event holding a frame is read as exactly its payload; bytes after it are ignored |
| Channels.FrameReads | src/Client/Channel.php:140-142 | a frame's length prefix reads back as the payload length, and the payload follows it |
| Channels.Channel.constructor | src/Client/Channel.php:34-43 | both queues empty, no connection, nothing scheduled |
| Channels.Channel.Connect | src/Client/Channel.php:64-79 | one more dial of `host:port` is pending |
| Channels.Channel.Send | src/Client/Channel.php:45-53 | a fresh handle; the entry is queued last; a dial only without a connection; the queue invariant is kept; on a live connection with no tick pending, nothing will write the entry |
| Channels.Channel.SendScheduling | src/Client/Channel.php:45-53 | send as intended: the same, plus a tick on a live connection, so every queued entry has a tick coming |
| Channels.Channel.ConnectFailed | src/Client/Channel.php:70-77 | a failed attempt arms one one-second retry timer |
| Channels.Channel.RetryTimerFired | src/Client/Channel.php:76 | the timer dials again |
| Channels.Channel.ConnectSucceeded | src/Client/Channel.php:81-91 | the connection is stored and one processQueue tick is scheduled |
| Channels.Channel.SendHead | src/Client/Channel.php:102-106 | the oldest entry leaves the queue; if written, it joins the in-flight queue and its frame the write log |
| Channels.Channel.TakeHead | src/Client/Channel.php:104-106 | the queue and in-flight bookkeeping of one written or lost entry |
| Channels.Channel.ProcessQueue | src/Client/Channel.php:93-110 | on an empty queue nothing happens and no tick is scheduled; otherwise PassOf's entries move in flight, its frames are written, the rest stays queued, and one tick is scheduled unless the pass raised |
| Channels.Channel.WriteBatch | src/Client/Channel.php:101-107 | the loop's effect is exactly the pass PassOf describes |
| Channels.Channel.PassEntry | src/Client/Channel.php:102-106 | one loop turn carries the pass's running totals forward or settles it with its exception |
| Channels.Channel.Tick | src/Client/Channel.php:109 | a scheduled tick runs processQueue with the same effect |
| Channels.Channel.DataArrived | src/Client/Channel.php:134-144 | with nothing in flight it fails; otherwise the oldest in-flight entry leaves the queue and its handle is resolved with Reply's response unless reading raises |
| Channels.Channel.Disconnect | src/Client/Channel.php:146-153 | end() is called only on an existing connection |
| Channels.Channel.ConnectionClosed | src/Client/Channel.php:155-160 | the connection is forgotten and both queues are kept |
| Channels.OneEntryPass | src/Client/Channel.php:101-107 | a one-entry queue whose sendMessage succeeds is moved in flight and emptied |
| Channels.ApiVersionsDispatch | src/Client/Channel.php:112-132 | an ApiVersions request (correlation 1, client "t") goes out as its 15-byte frame |
| Channels.Connected | src/Client/Channel.php:45-91 | one send followed by a successful connect leaves the request queued with one tick scheduled |
| Channels.Drained | src/Client/Channel.php:93-110 | after two ticks, the first writing the request and the second finding the queue empty, nothing is scheduled |
| Channels.StallScenario | src/Client/Channel.php:45-53 | a second send on that drained, live connection is queued with no tick to write it |
| Api.TwoPassFillsBuffer | src/Protocol/API/Request.php:15-24 | a successful toBuffer fills its buffer exactly: the size computed is the size written |
| Api.TwoPassReadsBack | src/Protocol/API/Request.php:15-24 | what toBuffer produced reads back from offset 0 as the value written and consumes all of it |
| Api.ValidValuesTwoPass | src/Protocol/API/Request.php:15-24 | toBuffer does not validate, but a value that would pass validation always encodes |
| Api.ToBuffer | src/Protocol/API/Request.php:15-24 | size, allocate, write: a fresh buffer holding TwoPass's bytes with the cursor at its end, or TwoPass's error |
| Api.HeaderSchema | src/Protocol/API/RequestHeaders.php:16-21 | the header definition parses to int16, int16, int32, nullable string |
| Api.HeaderLookups | src/Protocol/API/RequestHeaders.php:36-41 | each header field finds its own entry of the data array |
| Api.HeaderFieldSizes | src/Protocol/API/RequestHeaders.php:16-21 | the header fields take 2, 2, 4 and 2 + the client's length bytes |
| Api.HeaderSize | src/Protocol/API/RequestHeaders.php:43 | the header needs 10 bytes plus the client id's, whatever the data |
| Api.ShortBlob | src/Protocol/Type/NullableString.php:24-34 | a string longer than int16 fails on its length; a shorter one writes its length and bytes |
| Api.HeaderBytesAreFields | src/Protocol/API/RequestHeaders.php:43-44 | the header buffer is its fields written into exactly the size computed |
| Api.HeaderLayout | src/Protocol/API/RequestHeaders.php:32-47 | with fields in range, the header is api_key, api_version (int16), correlation_id (int32), client length (int16) and client bytes: 10 bytes plus the client's length |
| Api.HeaderApiKeyOutOfRange | src/Protocol/API/RequestHeaders.php:32-47 | with no validation first, an api key outside int16 surfaces as the writer's range error |
| Api.HeaderClientTooLong | src/Protocol/API/RequestHeaders.php:32-47 | a client id longer than int16 fails on its length prefix with a range error |
| Api.HighestVersionIsLastEntry | src/Protocol/API/MetadataRequest.php:37-40 | both requests advertise the last entry of their tables: 2 for ApiVersions, 7 for Metadata |
| Api.SchemaDefinition | src/Protocol/API/MetadataRequest.php:43-46 | the table entry for a version inside the table, UnknownSchemaVersion otherwise |
| Api.RequestToBuffer | src/Protocol/API/Request.php:15-24 | a fresh buffer holding exactly the request's bytes for the version, or their error |
| Api.ApiVersionsBodyEmpty | src/Protocol/API/ApiVersionsRequest.php:10-40 | every ApiVersions version has an empty body |
| Api.TopicSizes | src/Protocol/Type/ArrayOf.php:59-72 | a topic array's items need their int16 lengths and their bytes |
| Api.TopicWrites | src/Protocol/Type/ArrayOf.php:30-34 | a topic array's items write as their int16 lengths and bytes, given room for them |
| Api.MetadataSchema | src/Protocol/API/MetadataRequest.php:10-25 | v0 is a non-nullable topic array; v1-v3 make it nullable; v4-v7 add allow_auto_topic_creation |
| Api.MetadataLookups | src/Protocol/API/MetadataRequest.php:49-55 | asArray gives the topics (null becomes [] only in v0) and the creation flag |
| Api.TopicsField | src/Protocol/API/MetadataRequest.php:52 | the topics field takes as many bytes as it writes: a count (-1 for null) then the names |
| Api.FlagField | src/Protocol/Type/Boolean.php:20-23 | allow_auto_topic_creation is one byte, 1 for true and 0 for false |
| Api.MetadataRequestLayout | src/Protocol/API/MetadataRequest.php:10-55 | a Metadata body is the topics field, followed from v4 on by the flag byte; null topics are an empty array in v0 and -1 afterwards |
| Api.FrameLengthPrefix | src/Client/Channel.php:125-129 | a frame's int32 prefix counts exactly the bytes after it |
| Api.ApiVersionsHeader | src/Protocol/API/RequestHeaders.php:32-47 | the ApiVersions header (key 18, version 2, correlation 1, client "t") is 0012 0002 00000001 0001 74 |
| Api.ApiVersionsFrame | src/Client/Channel.php:122-129 | that request's frame is the length 11, then the header, then an empty body |

## Left out

- The logger, the event loop, the promise library and the socket are not modelled. Events become methods, scheduled callbacks become counters, writes to the connection become a log, and promises become handles mapped to resolved values.
- A rejected promise is not modelled: an exception raised while reading a reply leaves its handle unresolved.
- Floating-point values are not modelled, and neither is any PHP value other than null, booleans, ints, strings, buffers, objects by class, lists and maps. Strings are byte sequences; there is no encoding.
- PHP `assert()` and `TypeError` are modelled as errors:
  - `Schema::write`/`sizeOf` on a non-array;
  - the `assert` on the connection in `sendMessage`;
  - the correlation `assert` in `parseResponse`;
  - the strict-types failures of the typed writers and of `MetadataResponse`'s constructor.

  In each case the PHP fails, and the model returns an error instead.
- The processing queue is an `SplPriorityQueue` with every entry at priority 0, and PHP takes equal-priority entries out in no particular order. The model assumes FIFO order. The ordering claims of `Channels.PassOverContents`, `Channels.PassMeaning`, `Channels.QueueAppend` and `Channels.MoveHead` rest on this assumption, as does the `Increasing(Queued())` conjunct of `Channels.Channel.Valid`.
- `Channels.Channel.DataArrived`: reads one frame per data event, as `onData` does; TCP fragmentation is not modelled. Bytes after the frame are ignored (`Channels.ReplyReadsOneFrame`).
- `ApiVersionsResponse.php` is not part of this model. An ApiVersions reply with a matching correlation id ends in the `ResponseClassNotModelled` error instead of a parsed response.
- `Responses.MetadataResponseRoundTrip`: requires `api_versions` to be a list. Given a map, `fromArray` would accept it, but the model's array writer refuses a map.
- `Codec.Encode`, `Codec.SizeOf`, `Codec.Validate`, `CodecOps.WriteArray` and `CodecOps.ArraySize` refuse an associative array given to `ArrayOf` with `TypeMismatch`. The PHP counts, writes, sizes and validates any array by its values in insertion order (src/Protocol/Type/ArrayOf.php:30-34, 67-69, 89-93). A model map (`VMap`) has no order, so the model cannot say in which order those values would go.
- `Clusters.ToInt`: models PHP's `(int)` cast of decimal text: whitespace, a sign, digits and saturation. It does not model the exponent and fractional forms of numeric strings.
- The guard helpers that the types' `validate` methods call (`guardAgainstNull`, `guardType`, `guardClass`, `guardRange`, `guardLength`) are defined in a trait that is not part of this model. Their behaviour is taken from the type tests.
- `Codec.Decode`, `CodecOps.ReadBlob`: a negative length read by a non-nullable string or bytes type is modelled as a `NegativeLength` error. The PHP would pass the negative length on to `read`, which moves the cursor back and returns a shortened `substr`.
- `Binary.Message.NextIndex` takes a length of at least 0. `nextIndex` also accepts a negative length and moves the cursor back by it (src/Protocol/Message.php:94-104). The one caller in this model that can pass a negative length is `onData`, and `Channels.Reply` models that case through `Channels.ShortenedPayload`.
- `Binary.Message.Read` takes a length of at least 0. For a negative length, `read` returns `substr` with a negative length, which leaves off bytes at the end of the message (src/Protocol/Message.php:126-131). `onData`'s use of this is modelled by `Channels.ShortenedPayload`; the string and bytes types' use of it is the `NegativeLength` error above.
- `SchemaParser.ParseFieldType`: a model `Nested` definition that holds an entry named `_items` stands for no PHP array, because PHP reads such a map as an array definition (src/Protocol/Schema/Parser.php:39). Neither does a definition that repeats a key, because PHP array keys are distinct. The parser lemmas therefore require `SchemaParser.WellFormed` definitions. The types they produce have no nested schema with a repeated field name or a field named `_items` (`SchemaParser.Definable`).

## Findings

| source | as written | input that shows it | evidently intended | confidence | as-written member | corrected member |
|---|---|---|---|---|---|---|
| src/Client/Channel.php:45-53 | `send` only queues. The `processQueue` chain ends once a tick finds the queue empty (lines 95-97), and nothing restarts it while the connection stays open. | Send one request, connect, run the two ticks (the second finds the queue empty), then send again on the same connection. The second request stays queued with no tick pending. | A request sent on a live connection is eventually written: `send` on a live connection schedules a `processQueue` tick every time. | not executed | Channels.StallScenario | Channels.Channel.SendScheduling |
